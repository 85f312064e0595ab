/**
  The static routing configuration of the bridge.

  The program is configured with a dictionary from display cell to the NMEA
  sentence type and attribute that feeds it. At start-up it inverts that
  dictionary into a table from sentence type to the list of (cell, attribute)
  pairs fed by that sentence type. A Python dictionary keeps insertion order,
  so the configuration is a sequence of entries here, and its keys are
  distinct (`DistinctKeys`).
*/
module Routing {
  import opened Wrappers

  /** One configuration entry: cell `key` shows attribute `attr` of sentences of type `stype`. */
  datatype CellSource = CellSource(key: string, stype: string, attr: string)

  /** One entry of an inverted group: cell `key` is fed by attribute `attr`. */
  datatype Target = Target(key: string, attr: string)

  /** The cell configuration, in dictionary insertion order. */
  type Config = seq<CellSource>

  /** The inverted table: sentence type to its list of targets. */
  type Table = map<string, seq<Target>>

  /** A dictionary never holds the same key twice. */
  predicate DistinctKeys(c: Config) {
    forall i, j :: 0 <= i < j < |c| ==> c[i].key != c[j].key
  }

  function Keys(c: Config): set<string> {
    set i | 0 <= i < |c| :: c[i].key
  }

  function SentenceTypes(c: Config): set<string> {
    set i | 0 <= i < |c| :: c[i].stype
  }

  /** Dictionary lookup `config[key]`: the entry stored under `key`, if any. */
  function Lookup(c: Config, key: string): (r: Option<CellSource>)
    ensures r.Some? ==> r.value in c && r.value.key == key
    ensures r.None? <==> key !in Keys(c)
    ensures DistinctKeys(c) ==> forall i :: 0 <= i < |c| && c[i].key == key ==> r == Some(c[i])
  {
    if |c| == 0 then None
    else if c[0].key == key then Some(c[0])
    else
      assert Keys(c) == {c[0].key} + Keys(c[1..]) by { KeysCons(c); }
      Lookup(c[1..], key)
  }

  /** Position of the entry stored under `key`. */
  function IndexOfKey(c: Config, key: string): (i: nat)
    requires key in Keys(c)
    ensures i < |c| && c[i].key == key
    ensures forall j :: 0 <= j < i ==> c[j].key != key
  {
    KeysCons(c);
    if c[0].key == key then 0 else 1 + IndexOfKey(c[1..], key)
  }

  /** `table.get(stype, [])`. */
  function RoutesFor(t: Table, stype: string): seq<Target> {
    if stype in t then t[stype] else []
  }

  /** One loop iteration: append the entry's target to its sentence type's group, creating the group if needed. */
  function Insert(t: Table, e: CellSource): Table {
    t[e.stype := RoutesFor(t, e.stype) + [Target(e.key, e.attr)]]
  }

  /**
    The start-up inversion loop, folding `Insert` over the configuration in
    order. Its keys are exactly the configured sentence types, and the group
    of every sentence type is the reference `Group`.
  */
  function Invert(c: Config): (t: Table)
    ensures t.Keys == SentenceTypes(c)
    ensures forall s :: RoutesFor(t, s) == Group(c, s)
    decreases |c|
  {
    if |c| == 0 then map[]
    else
      var p := c[..|c| - 1];
      var e := c[|c| - 1];
      assert c == p + [e];
      KeysSnoc(p, e);
      assert forall s :: Group(c, s) == Group(p, s) + (if e.stype == s then [Target(e.key, e.attr)] else []) by {
        forall s { GroupSnoc(p, e, s); }
      }
      Insert(Invert(p), e)
  }

  /**
    Reference definition of a group: the configuration entries of sentence
    type `stype`, in configuration order, reduced to their (key, attribute).
  */
  function Group(c: Config, stype: string): seq<Target>
    decreases |c|
  {
    if |c| == 0 then []
    else (if c[0].stype == stype then [Target(c[0].key, c[0].attr)] else []) + Group(c[1..], stype)
  }

  /** Number of targets in `ts` for cell `key`. */
  function CountKey(ts: seq<Target>, key: string): nat
    decreases |ts|
  {
    if |ts| == 0 then 0 else (if ts[0].key == key then 1 else 0) + CountKey(ts[1..], key)
  }

  lemma KeysCons(c: Config)
    requires |c| > 0
    ensures Keys(c) == {c[0].key} + Keys(c[1..])
    ensures SentenceTypes(c) == {c[0].stype} + SentenceTypes(c[1..])
  {
    forall k | k in Keys(c) ensures k in {c[0].key} + Keys(c[1..]) {
      var i :| 0 <= i < |c| && c[i].key == k;
      if i > 0 { assert c[1..][i - 1].key == k; }
    }
    forall k | k in Keys(c[1..]) ensures k in Keys(c) {
      var i :| 0 <= i < |c[1..]| && c[1..][i].key == k;
      assert c[i + 1].key == k;
    }
    forall s | s in SentenceTypes(c) ensures s in {c[0].stype} + SentenceTypes(c[1..]) {
      var i :| 0 <= i < |c| && c[i].stype == s;
      if i > 0 { assert c[1..][i - 1].stype == s; }
    }
    forall s | s in SentenceTypes(c[1..]) ensures s in SentenceTypes(c) {
      var i :| 0 <= i < |c[1..]| && c[1..][i].stype == s;
      assert c[i + 1].stype == s;
    }
  }

  lemma KeysSnoc(c: Config, e: CellSource)
    ensures Keys(c + [e]) == Keys(c) + {e.key}
    ensures SentenceTypes(c + [e]) == SentenceTypes(c) + {e.stype}
  {
    var d := c + [e];
    forall k | k in Keys(d) ensures k in Keys(c) + {e.key} {
      var i :| 0 <= i < |d| && d[i].key == k;
      if i < |c| { assert c[i].key == k; }
    }
    forall k | k in Keys(c) ensures k in Keys(d) {
      var i :| 0 <= i < |c| && c[i].key == k;
      assert d[i].key == k;
    }
    assert d[|c|].key == e.key;
    forall s | s in SentenceTypes(d) ensures s in SentenceTypes(c) + {e.stype} {
      var i :| 0 <= i < |d| && d[i].stype == s;
      if i < |c| { assert c[i].stype == s; }
    }
    forall s | s in SentenceTypes(c) ensures s in SentenceTypes(d) {
      var i :| 0 <= i < |c| && c[i].stype == s;
      assert d[i].stype == s;
    }
    assert d[|c|].stype == e.stype;
  }

  lemma {:induction false} GroupSnoc(c: Config, e: CellSource, stype: string)
    ensures Group(c + [e], stype)
         == Group(c, stype) + (if e.stype == stype then [Target(e.key, e.attr)] else [])
    decreases |c|
  {
    if |c| == 0 {
      assert (c + [e])[1..] == [];
    } else {
      assert (c + [e])[1..] == c[1..] + [e];
      GroupSnoc(c[1..], e, stype);
    }
  }

  /**
    The inverted table holds exactly the configured sentence types, each with
    a non-empty group, and the group of every sentence type (present or not,
    read with `.get(stype, [])`) is the reference `Group`: the entries of that
    type in configuration order.
  */
  lemma {:induction false} InvertIsGrouping(c: Config)
    ensures Invert(c).Keys == SentenceTypes(c)
    ensures forall s :: s in Invert(c) ==> |Invert(c)[s]| > 0
    ensures forall s :: RoutesFor(Invert(c), s) == Group(c, s)
    decreases |c|
  {
    if |c| > 0 {
      var p, e := c[..|c| - 1], c[|c| - 1];
      assert c == p + [e];
      InvertIsGrouping(p);
      KeysSnoc(p, e);
      forall s ensures RoutesFor(Invert(c), s) == Group(c, s) {
        GroupSnoc(p, e, s);
      }
    }
  }

  /** A target is in a group exactly when the configuration holds the matching entry. */
  lemma {:induction false} GroupMember(c: Config, stype: string, key: string, attr: string)
    ensures Target(key, attr) in Group(c, stype) <==> CellSource(key, stype, attr) in c
    decreases |c|
  {
    if |c| > 0 {
      GroupMember(c[1..], stype, key, attr);
      assert c == [c[0]] + c[1..];
    }
  }

  /**
    The inversion is exact: `(key, attr)` is routed from `stype` if and only if
    the configuration maps `key` to `(stype, attr)`.
  */
  lemma InvertExact(c: Config, stype: string, key: string, attr: string)
    requires DistinctKeys(c)
    ensures Target(key, attr) in RoutesFor(Invert(c), stype)
        <==> Lookup(c, key) == Some(CellSource(key, stype, attr))
  {
    InvertIsGrouping(c);
    GroupMember(c, stype, key, attr);
  }

  lemma {:induction false} CountKeyAppend(a: seq<Target>, b: seq<Target>, key: string)
    ensures CountKey(a + b, key) == CountKey(a, key) + CountKey(b, key)
    decreases |a|
  {
    if |a| == 0 {
      assert a + b == b;
    } else {
      assert (a + b)[1..] == a[1..] + b;
      CountKeyAppend(a[1..], b, key);
    }
  }

  /** A cell that is not configured appears in no group. */
  lemma {:induction false} GroupCountAbsent(c: Config, stype: string, key: string)
    requires key !in Keys(c)
    ensures CountKey(Group(c, stype), key) == 0
    decreases |c|
  {
    if |c| > 0 {
      KeysCons(c);
      GroupCountAbsent(c[1..], stype, key);
      var head := if c[0].stype == stype then [Target(c[0].key, c[0].attr)] else [];
      CountKeyAppend(head, Group(c[1..], stype), key);
    }
  }

  lemma {:induction false} GroupCount(c: Config, i: nat, stype: string)
    requires DistinctKeys(c)
    requires i < |c|
    ensures CountKey(Group(c, stype), c[i].key) == (if c[i].stype == stype then 1 else 0)
    decreases |c|
  {
    var head := if c[0].stype == stype then [Target(c[0].key, c[0].attr)] else [];
    CountKeyAppend(head, Group(c[1..], stype), c[i].key);
    if i == 0 {
      TailKeysDiffer(c);
      GroupCountAbsent(c[1..], stype, c[0].key);
    } else {
      assert c[1..][i - 1] == c[i];
      GroupCount(c[1..], i - 1, stype);
    }
  }

  /**
    Every configured cell appears exactly once in the group of its own
    sentence type and in no other group; an unconfigured cell appears nowhere.
  */
  lemma KeyInExactlyOneGroup(c: Config, key: string, stype: string)
    requires DistinctKeys(c)
    ensures CountKey(RoutesFor(Invert(c), stype), key)
         == (if Lookup(c, key).Some? && Lookup(c, key).value.stype == stype then 1 else 0)
  {
    InvertIsGrouping(c);
    match Lookup(c, key)
    case None =>
      GroupCountAbsent(c, stype, key);
    case Some(e) =>
      var i :| 0 <= i < |c| && c[i] == e;
      GroupCount(c, i, stype);
  }

  /**
    Within a group, targets keep the insertion order of the configuration:
    an earlier target's cell is configured before a later target's cell.
  */
  lemma {:induction false} GroupKeepsOrder(c: Config, stype: string, i: nat, j: nat)
    requires DistinctKeys(c)
    requires i < j < |Group(c, stype)|
    ensures Group(c, stype)[i].key in Keys(c) && Group(c, stype)[j].key in Keys(c)
    ensures IndexOfKey(c, Group(c, stype)[i].key) < IndexOfKey(c, Group(c, stype)[j].key)
    decreases |c|
  {
    var g, h := Group(c, stype), Group(c[1..], stype);
    GroupKeysConfigured(c, stype);
    GroupKeysConfigured(c[1..], stype);
    TailKeysDiffer(c);
    if c[0].stype == stype {
      assert g == [Target(c[0].key, c[0].attr)] + h;
      assert g[j] == h[j - 1];
      IndexOfTail(c, h[j - 1].key);
      if i > 0 {
        assert g[i] == h[i - 1];
        IndexOfTail(c, h[i - 1].key);
        GroupKeepsOrder(c[1..], stype, i - 1, j - 1);
      }
    } else {
      assert g == h;
      IndexOfTail(c, h[i].key);
      IndexOfTail(c, h[j].key);
      GroupKeepsOrder(c[1..], stype, i, j);
    }
  }

  /** In a dictionary, the first entry's key occurs nowhere after it. */
  lemma TailKeysDiffer(c: Config)
    requires DistinctKeys(c) && |c| > 0
    ensures DistinctKeys(c[1..])
    ensures c[0].key !in Keys(c[1..])
  {
    forall m | 0 <= m < |c[1..]| ensures c[1..][m].key != c[0].key {
      assert c[1..][m] == c[m + 1];
    }
  }

  lemma IndexOfTail(c: Config, key: string)
    requires |c| > 0 && key in Keys(c[1..]) && key != c[0].key
    ensures key in Keys(c) && IndexOfKey(c, key) == 1 + IndexOfKey(c[1..], key)
  {
    KeysCons(c);
  }

  lemma {:induction false} GroupKeysConfigured(c: Config, stype: string)
    ensures forall n :: 0 <= n < |Group(c, stype)| ==> Group(c, stype)[n].key in Keys(c)
    decreases |c|
  {
    if |c| > 0 {
      KeysCons(c);
      GroupKeysConfigured(c[1..], stype);
    }
  }
}
