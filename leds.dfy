/**
 * set_key: a key-to-colour dictionary becomes one keyledsctl command line of
 * "key=colour" binds; an empty dictionary sends nothing.
 */
module Leds {
  import opened Wrappers
  import opened Palette

  /** The program and subcommand that every LED update starts with. */
  const Program: seq<string> := ["keyledsctl", "set-leds"]

  /** One bind, f"{k}={v}". */
  function Bind(key: string, colour: string): (b: string)
    ensures |b| == |key| + 1 + |colour| && b[|key|] == '='
  {
    key + "=" + colour
  }

  /** Splits a bind at its first '='. */
  function ParseBind(b: string): (r: Option<(string, string)>)
    ensures r.None? <==> '=' !in b
    ensures r.Some? ==> '=' !in r.value.0 && Bind(r.value.0, r.value.1) == b
  {
    if b == [] then None
    else if b[0] == '=' then Some(([], b[1..]))
    else
      match ParseBind(b[1..])
      case None => None
      case Some(kv) =>
        assert b == [b[0]] + b[1..];
        Some(([b[0]] + kv.0, kv.1))
  }

  /** A key without '=' and its colour are read back from their bind. */
  lemma {:induction false} BindRoundTrip(key: string, colour: string)
    requires '=' !in key
    ensures ParseBind(Bind(key, colour)) == Some((key, colour))
  {
    if key == [] {
      assert Bind(key, colour)[1..] == colour;
    } else {
      assert Bind(key, colour)[1..] == Bind(key[1..], colour);
      BindRoundTrip(key[1..], colour);
      assert key == [key[0]] + key[1..];
    }
  }

  /** The binds of a dictionary's items, in the order the items are listed. */
  function Binds(entries: seq<(string, string)>): (r: seq<string>)
    ensures |r| == |entries|
  {
    seq(|entries|, i requires 0 <= i < |entries| => Bind(entries[i].0, entries[i].1))
  }

  /** The command set_key runs, or None when there is nothing to set. */
  function SetKeyCommand(entries: seq<(string, string)>): (r: Option<seq<string>>)
    ensures r.None? <==> entries == []
    ensures r.Some? ==> |r.value| == |Program| + |entries| && r.value[..|Program|] == Program
  {
    var binds := Binds(entries);
    if |binds| <= 0 then None else Some(Program + binds)
  }

  /** entries lists the items of m: each key once, with its colour. */
  ghost predicate ListsMap(entries: seq<(string, string)>, m: map<string, string>)
  {
    && (forall i :: 0 <= i < |entries| ==> entries[i].0 in m && m[entries[i].0] == entries[i].1)
    && (forall k :: k in m ==> exists i :: 0 <= i < |entries| && entries[i].0 == k)
    && (forall i, j :: 0 <= i < j < |entries| ==> entries[i].0 != entries[j].0)
  }

  /** Each bind of a dictionary without '=' in its keys reads back as its item. */
  lemma BindsReadBack(entries: seq<(string, string)>)
    requires forall i :: 0 <= i < |entries| ==> '=' !in entries[i].0
    ensures forall i :: 0 <= i < |entries| ==> ParseBind(Binds(entries)[i]) == Some(entries[i])
  {
    forall i | 0 <= i < |entries|
      ensures ParseBind(Binds(entries)[i]) == Some(entries[i])
    {
      BindRoundTrip(entries[i].0, entries[i].1);
    }
  }

  /** For a listed dictionary the command is sent exactly when the dictionary is not empty, with one bind per key. */
  lemma CommandSentIffNonEmpty(entries: seq<(string, string)>, m: map<string, string>)
    requires ListsMap(entries, m)
    ensures SetKeyCommand(entries).None? <==> m == map[]
    ensures SetKeyCommand(entries).Some? ==> |SetKeyCommand(entries).value| == |Program| + |m|
  {
    KeysCount(entries, m);
    if m == map[] {
      assert |entries| == 0;
    }
  }

  /**
   * For a dictionary whose keys contain no '=', the command is the program
   * followed by the binds; every bind reads back as one of the dictionary's
   * items, and every item has a bind.
   */
  lemma CommandCoversMap(entries: seq<(string, string)>, m: map<string, string>)
    requires ListsMap(entries, m)
    requires forall k :: k in m ==> '=' !in k
    requires entries != []
    ensures SetKeyCommand(entries) == Some(Program + Binds(entries))
    ensures forall j :: 0 <= j < |Binds(entries)| ==>
              ParseBind(Binds(entries)[j]).Some? && ParseBind(Binds(entries)[j]).value.0 in m &&
              m[ParseBind(Binds(entries)[j]).value.0] == ParseBind(Binds(entries)[j]).value.1
    ensures forall k :: k in m ==>
              exists j :: 0 <= j < |Binds(entries)| && ParseBind(Binds(entries)[j]) == Some((k, m[k]))
  {
    var binds := Binds(entries);
    BindsReadBack(entries);
    forall k | k in m
      ensures exists j :: 0 <= j < |binds| && ParseBind(binds[j]) == Some((k, m[k]))
    {
      var i :| 0 <= i < |entries| && entries[i].0 == k;
      assert ParseBind(binds[i]) == Some((k, m[k]));
    }
  }

  /** A listing of a map's items has as many entries as the map has keys. */
  lemma KeysCount(entries: seq<(string, string)>, m: map<string, string>)
    requires ListsMap(entries, m)
    ensures |entries| == |m|
  {
    var keys := seq(|entries|, i requires 0 <= i < |entries| => entries[i].0);
    DistinctCard(keys);
    assert (set i | 0 <= i < |keys| :: keys[i]) == m.Keys by {
      forall k | k in m.Keys
        ensures k in (set i | 0 <= i < |keys| :: keys[i])
      {
        var i :| 0 <= i < |entries| && entries[i].0 == k;
        assert keys[i] == k;
      }
    }
  }

  /** A sequence without repetitions has as many elements as its set. */
  lemma {:induction false} DistinctCard(s: seq<string>)
    requires forall i, j :: 0 <= i < j < |s| ==> s[i] != s[j]
    ensures |set i | 0 <= i < |s| :: s[i]| == |s|
  {
    if s != [] {
      var t := s[..|s| - 1];
      DistinctCard(t);
      var st := set i | 0 <= i < |t| :: t[i];
      assert (set i | 0 <= i < |s| :: s[i]) == st + {s[|s| - 1]} by {
        forall i | 0 <= i < |s| - 1
          ensures s[i] == t[i]
        {
        }
      }
      assert s[|s| - 1] !in st;
    }
  }

  /** The clear module's build: every key set to the background colour. */
  lemma ClearCommand()
    ensures SetKeyCommand([("all", Background)]) == Some(["keyledsctl", "set-leds", "all=f1f1f1"])
  {
    assert Bind("all", Background) == "all=f1f1f1";
    var binds := Binds([("all", Background)]);
    assert binds == [Bind("all", Background)];
    assert Program + binds == ["keyledsctl", "set-leds", "all=f1f1f1"];
  }
}
