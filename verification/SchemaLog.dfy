/**
 The schema log: what replaying it means, and catching up with a log that
 another node is ahead in.
 */
module SchemaLog {
  import opened Bytes
  import opened Text
  import opened Materializer

  type Name = Buf

  datatype SchemaOp = CreateIndex | DropIndex

  datatype Entry = Entry(version: nat, op: SchemaOp, collection: Name, field: Name, indexId: Name)

  datatype Def = Def(id: Name, collection: Name, field: Name, createdAt: nat)

  datatype Coll = Coll(indexes: seq<Def>, version: nat)

  datatype Schema = Schema(version: nat, collections: map<Name, Coll>, active: map<Name, map<Name, Name>>)

  const EMPTY := Schema(0, map[], map[])

  function CollOf(s: Schema, c: Name): Coll { if c in s.collections then s.collections[c] else Coll([], 0) }

  function FieldsOf(s: Schema, c: Name): map<Name, Name> { if c in s.active then s.active[c] else map[] }

  function ActiveOf(s: Schema, c: Name, f: Name): Option<Name> {
    if f in FieldsOf(s, c) then Some(FieldsOf(s, c)[f]) else None
  }

  /** The definitions with another id. */
  function Retain(defs: seq<Def>, id: Name): seq<Def> {
    if defs == [] then []
    else Retain(defs[..|defs| - 1], id) + (if defs[|defs| - 1].id != id then [defs[|defs| - 1]] else [])
  }

  function DefOf(e: Entry): Def { Def(e.indexId, e.collection, e.field, e.version) }

  function Applied(s: Schema, e: Entry): Schema {
    match e.op
    case CreateIndex =>
      Schema(e.version,
             s.collections[e.collection := Coll(CollOf(s, e.collection).indexes + [DefOf(e)], e.version)],
             s.active[e.collection := FieldsOf(s, e.collection)[e.field := e.indexId]])
    case DropIndex =>
      Schema(e.version,
             s.collections[e.collection := Coll(Retain(CollOf(s, e.collection).indexes, e.indexId), e.version)],
             if ActiveOf(s, e.collection, e.field) == Some(e.indexId)
             then s.active[e.collection := s.active[e.collection] - {e.field}] else s.active)
  }

  function Replay(log: seq<Entry>): Schema {
    if log == [] then EMPTY else Applied(Replay(log[..|log| - 1]), log[|log| - 1])
  }

  // ---------------------------------------------------------------------
  // The meaning of a log
  // ---------------------------------------------------------------------

  predicate Creates(e: Entry, c: Name) { e.op.CreateIndex? && e.collection == c }

  predicate Drops(e: Entry, c: Name, id: Name) { e.op.DropIndex? && e.collection == c && e.indexId == id }

  predicate DroppedAfter(log: seq<Entry>, i: nat)
    requires i < |log|
  {
    exists j :: i < j < |log| && Drops(log[j], log[i].collection, log[i].indexId)
  }

  /** Of the first n entries: the indexes created in `c` and not dropped by any later entry, in order of creation. */
  function LiveDefs(log: seq<Entry>, c: Name, n: nat): seq<Def>
    requires n <= |log|
  {
    if n == 0 then []
    else LiveDefs(log, c, n - 1) +
         (if Creates(log[n - 1], c) && !DroppedAfter(log, n - 1) then [DefOf(log[n - 1])] else [])
  }

  lemma {:induction false} DroppedNow(log: seq<Entry>, e: Entry, i: nat)
    requires i < |log|
    ensures DroppedAfter(log + [e], i) <==> DroppedAfter(log, i) || Drops(e, log[i].collection, log[i].indexId)
  {
    var all := log + [e];
    if DroppedAfter(log, i) {
      var j :| i < j < |log| && Drops(log[j], log[i].collection, log[i].indexId);
      assert Drops(all[j], all[i].collection, all[i].indexId);
    }
    if Drops(e, log[i].collection, log[i].indexId) {
      assert Drops(all[|log|], all[i].collection, all[i].indexId);
    }
    if DroppedAfter(all, i) {
      var j :| i < j < |all| && Drops(all[j], all[i].collection, all[i].indexId);
      if j < |log| { assert Drops(log[j], log[i].collection, log[i].indexId); }
    }
  }

  lemma {:induction false} RetainNext(defs: seq<Def>, d: Def, id: Name)
    ensures Retain(defs + [d], id) == Retain(defs, id) + (if d.id != id then [d] else [])
  {
    assert (defs + [d])[..|defs|] == defs;
  }

  lemma LiveStep(log: seq<Entry>, c: Name, n: nat)
    requires 0 < n <= |log|
    ensures LiveDefs(log, c, n) == LiveDefs(log, c, n - 1) +
      (if Creates(log[n - 1], c) && !DroppedAfter(log, n - 1) then [DefOf(log[n - 1])] else [])
  {
    hide DroppedAfter;
  }

  /** One more entry removes what it drops from the live indexes so far, and nothing else. */
  lemma {:induction false} LiveNow(log: seq<Entry>, e: Entry, c: Name, n: nat)
    requires n <= |log|
    ensures LiveDefs(log + [e], c, n) ==
      if e.op.DropIndex? && e.collection == c then Retain(LiveDefs(log, c, n), e.indexId) else LiveDefs(log, c, n)
    decreases n
  {
    hide DroppedAfter, Retain;
    if n == 0 {
      assert Retain([], e.indexId) == [] by { RetainNone(e.indexId); }
    } else {
      LiveNow(log, e, c, n - 1);
      DroppedNow(log, e, n - 1);
      LiveStep(log, c, n);
      LiveStep(log + [e], c, n);
      hide LiveDefs;
      assert (log + [e])[n - 1] == log[n - 1];
      var live := LiveDefs(log, c, n - 1);
      RetainNext(live, DefOf(log[n - 1]), e.indexId);
      assert live + [] == live && Retain(live, e.indexId) + [] == Retain(live, e.indexId);
    }
  }

  lemma RetainNone(id: Name)
    ensures Retain([], id) == []
  {
  }

  /** Replaying any log leaves in each collection exactly the indexes created and not dropped later,
      in order of creation. */
  lemma {:induction false} ReplayIndexes(log: seq<Entry>, c: Name)
    ensures CollOf(Replay(log), c).indexes == LiveDefs(log, c, |log|)
    decreases |log|
  {
    hide DroppedAfter, Retain;
    if log != [] {
      var m := |log| - 1;
      var e := log[m];
      ReplayIndexes(log[..m], c);
      assert log == log[..m] + [e];
      LiveNow(log[..m], e, c, m);
      LiveStep(log, c, m + 1);
      NothingAfterLast(log);
      AppliedIndexes(Replay(log[..m]), e, c);
      hide LiveDefs, Applied, CollOf;
    }
  }

  lemma AppliedIndexes(s: Schema, e: Entry, c: Name)
    ensures CollOf(Applied(s, e), c).indexes ==
      if e.collection != c then CollOf(s, c).indexes
      else if e.op.CreateIndex? then CollOf(s, c).indexes + [DefOf(e)]
      else Retain(CollOf(s, c).indexes, e.indexId)
  {
    hide Retain;
  }

  lemma NothingAfterLast(log: seq<Entry>)
    requires log != []
    ensures !DroppedAfter(log, |log| - 1)
  {
  }

  /** Entry number i creates an index in `c` that no later entry drops. */
  predicate CreatesLive(log: seq<Entry>, c: Name, i: nat) {
    && i < |log| && log[i].op.CreateIndex? && log[i].collection == c
    && forall j :: i < j < |log| ==>
         !(log[j].op.DropIndex? && log[j].collection == c && log[j].indexId == log[i].indexId)
  }

  /** The definition has the collection's name and the entry's index id, field and version. */
  predicate Describes(d: Def, c: Name, e: Entry) {
    d.collection == c && d.id == e.indexId && d.field == e.field && d.createdAt == e.version
  }

  lemma {:induction false} LiveEntries(log: seq<Entry>, c: Name, n: nat) returns (at: seq<nat>)
    requires n <= |log|
    ensures Increasing(at) && |at| == |LiveDefs(log, c, n)|
    ensures forall i: nat :: i in at <==> i < n && CreatesLive(log, c, i)
    ensures forall k :: 0 <= k < |at| ==> at[k] < |log| && Describes(LiveDefs(log, c, n)[k], c, log[at[k]])
    decreases n
  {
    if n == 0 {
      at := [];
    } else {
      var rest := LiveEntries(log, c, n - 1);
      at := rest;
      assert forall k :: 0 <= k < |rest| ==> rest[k] in rest;
      LiveStep(log, c, n);
      LiveMeans(log, c, n - 1);
      hide LiveDefs, DroppedAfter, CreatesLive;
      if Creates(log[n - 1], c) && !DroppedAfter(log, n - 1) { at := rest + [n - 1]; }
    }
  }

  lemma {:induction false} LiveMeans(log: seq<Entry>, c: Name, i: nat)
    requires i < |log|
    ensures CreatesLive(log, c, i) <==> Creates(log[i], c) && !DroppedAfter(log, i)
  {
  }

  /** What a collection lists after any log, told by the log alone: one definition for each entry
      that creates an index in it which is not dropped later, in the order of these entries, with the
      entry's index id, field and version, and with the collection's own name. */
  lemma {:induction false} ListedExactly(log: seq<Entry>, c: Name) returns (at: seq<nat>)
    ensures var defs := CollOf(Replay(log), c).indexes;
      && Increasing(at) && |at| == |defs| && (forall i: nat :: i in at <==> CreatesLive(log, c, i))
      && forall k :: 0 <= k < |at| ==> at[k] < |log| && Describes(defs[k], c, log[at[k]])
  {
    hide Replay, LiveDefs;
    ReplayIndexes(log, c);
    at := LiveEntries(log, c, |log|);
  }

  /** The version of a collection is that of the last entry that names it, and without any it is not
      known; the version of the whole schema is that of the last entry. */
  lemma {:induction false} VersionsAreLast(log: seq<Entry>, c: Name)
    ensures Replay(log).version == if log == [] then 0 else log[|log| - 1].version
    ensures forall i :: 0 <= i < |log| && log[i].collection == c &&
                        (forall j :: i < j < |log| ==> log[j].collection != c) ==>
      c in Replay(log).collections && Replay(log).collections[c].version == log[i].version
    ensures (forall i :: 0 <= i < |log| ==> log[i].collection != c) ==> c !in Replay(log).collections
    decreases |log|
  {
    hide Applied;
    if log != [] {
      var m := |log| - 1;
      VersionsAreLast(log[..m], c);
      assert forall i :: 0 <= i < m ==> log[..m][i] == log[i];
      AppliedVersions(Replay(log[..m]), log[m], c);
    }
  }

  lemma AppliedVersions(s: Schema, e: Entry, c: Name)
    ensures var t := Applied(s, e);
      && t.version == e.version && (c in t.collections <==> c in s.collections || c == e.collection)
      && (c in t.collections ==>
            t.collections[c].version == if c == e.collection then e.version else s.collections[c].version)
  {
    hide Retain;
  }

  // ---------------------------------------------------------------------
  // The active index of a field
  // ---------------------------------------------------------------------

  predicate CreatesOn(e: Entry, c: Name, f: Name) { Creates(e, c) && e.field == f }

  predicate Latest(log: seq<Entry>, c: Name, f: Name, i: nat) {
    i < |log| && CreatesOn(log[i], c, f) && forall j :: i < j < |log| ==> !CreatesOn(log[j], c, f)
  }

  predicate DroppedOn(log: seq<Entry>, i: nat, f: Name)
    requires i < |log|
  {
    exists j :: i < j < |log| && Drops(log[j], log[i].collection, log[i].indexId) && log[j].field == f
  }

  lemma ActiveStep(s: Schema, e: Entry, c: Name, f: Name)
    ensures ActiveOf(Applied(s, e), c, f) ==
      if CreatesOn(e, c, f) then Some(e.indexId)
      else if e.op.DropIndex? && e.collection == c && e.field == f && ActiveOf(s, c, f) == Some(e.indexId) then None
      else ActiveOf(s, c, f)
  {
    hide Retain;
  }

  ghost predicate ActiveMeans(log: seq<Entry>, c: Name, f: Name, id: Option<Name>) {
    && (forall i: nat :: Latest(log, c, f, i) ==> id == if DroppedOn(log, i, f) then None else Some(log[i].indexId))
    && ((forall i: nat :: !Latest(log, c, f, i)) ==> id == None)
  }

  lemma {:induction false} ActiveOfCreate(log: seq<Entry>, c: Name, f: Name)
    requires log != [] && CreatesOn(log[|log| - 1], c, f)
    ensures ActiveMeans(log, c, f, Some(log[|log| - 1].indexId))
  {
    hide CreatesOn, Drops;
    var m := |log| - 1;
    assert Latest(log, c, f, m);
    assert forall i: nat :: Latest(log, c, f, i) ==> i == m;
    assert !DroppedOn(log, m, f);
  }

  lemma {:induction false} ActiveOfOther(log: seq<Entry>, c: Name, f: Name, id: Option<Name>)
    requires log != [] && !CreatesOn(log[|log| - 1], c, f) && ActiveMeans(log[..|log| - 1], c, f, id)
    ensures var e := log[|log| - 1];
      var gone := e.op.DropIndex? && e.collection == c && e.field == f && id == Some(e.indexId);
      ActiveMeans(log, c, f, if gone then None else id)
  {
    var rest, e := log[..|log| - 1], log[|log| - 1];
    forall i: nat ensures Latest(log, c, f, i) <==> Latest(rest, c, f, i) { LatestSame(log, c, f, i); }
    forall i: nat | Latest(log, c, f, i)
      ensures i < |log| - 1 && log[i].collection == c
      ensures DroppedOn(log, i, f) <==> DroppedOn(rest, i, f) || (Drops(e, c, log[i].indexId) && e.field == f)
    {
      DroppedOnNow(log, i, f);
    }
    hide Latest, DroppedOn;
  }

  lemma {:induction false} ReplayMeans(log: seq<Entry>, c: Name, f: Name)
    ensures ActiveMeans(log, c, f, ActiveOf(Replay(log), c, f))
    decreases |log|
  {
    if log == [] {
      assert ActiveOf(EMPTY, c, f) == None;
    } else {
      hide ActiveMeans, Replay, Applied, ActiveOf, CreatesOn;
      var rest, e := log[..|log| - 1], log[|log| - 1];
      ReplayMeans(rest, c, f);
      ReplayLast(log);
      ActiveStep(Replay(rest), e, c, f);
      if CreatesOn(e, c, f) {
        ActiveOfCreate(log, c, f);
      } else {
        ActiveOfOther(log, c, f, ActiveOf(Replay(rest), c, f));
      }
    }
  }

  /** The active index of a field is the one created last on it, unless that one was dropped under
      the field's name afterwards; without any there is none. */
  lemma {:induction false} ReplayActive(log: seq<Entry>, c: Name, f: Name)
    ensures forall i: nat :: Latest(log, c, f, i) ==>
      ActiveOf(Replay(log), c, f) == if DroppedOn(log, i, f) then None else Some(log[i].indexId)
    ensures (forall i: nat :: !Latest(log, c, f, i)) ==> ActiveOf(Replay(log), c, f) == None
  {
    hide Replay, ActiveOf;
    ReplayMeans(log, c, f);
  }

  lemma ReplayLast(log: seq<Entry>)
    requires log != []
    ensures Replay(log) == Applied(Replay(log[..|log| - 1]), log[|log| - 1])
  {
  }

  lemma {:induction false} LatestSame(log: seq<Entry>, c: Name, f: Name, i: nat)
    requires log != [] && !CreatesOn(log[|log| - 1], c, f)
    ensures Latest(log, c, f, i) <==> Latest(log[..|log| - 1], c, f, i)
  {
    hide CreatesOn;
    var rest := log[..|log| - 1];
    assert forall j :: 0 <= j < |rest| ==> rest[j] == log[j];
  }

  lemma {:induction false} DroppedOnNow(log: seq<Entry>, i: nat, f: Name)
    requires i < |log| - 1
    ensures DroppedOn(log, i, f) <==>
      || DroppedOn(log[..|log| - 1], i, f)
      || (Drops(log[|log| - 1], log[i].collection, log[i].indexId) && log[|log| - 1].field == f)
  {
    hide Drops;
    var rest := log[..|log| - 1];
    assert forall j :: 0 <= j < |rest| ==> rest[j] == log[j];
  }

  /** Each drop names the field its index was created on. */
  predicate DropsNameFields(log: seq<Entry>) {
    forall i, j :: 0 <= i < j < |log| && log[i].op.CreateIndex? && Drops(log[j], log[i].collection, log[i].indexId) ==>
      log[j].field == log[i].field
  }

  /** Then the active index of a field is the one created last on it if it is live, and none otherwise. */
  lemma {:induction false} ActiveIsLatestLive(log: seq<Entry>, c: Name, f: Name, i: nat)
    requires DropsNameFields(log) && Latest(log, c, f, i)
    ensures ActiveOf(Replay(log), c, f) == if DroppedAfter(log, i) then None else Some(log[i].indexId)
  {
    hide Replay, ActiveOf;
    ReplayActive(log, c, f);
    if j :| i < j < |log| && Drops(log[j], log[i].collection, log[i].indexId) {
      assert log[j].field == f;
    }
  }

  lemma {:induction false} LiveListed(log: seq<Entry>, c: Name, n: nat, i: nat)
    requires i < n <= |log| && Creates(log[i], c) && !DroppedAfter(log, i)
    ensures DefOf(log[i]) in LiveDefs(log, c, n)
    decreases n
  {
    hide DroppedAfter;
    if i < n - 1 { LiveListed(log, c, n - 1, i); }
  }

  /** The active index of a field is one of the collection's indexes, and on that field. */
  lemma {:induction false} ActiveIsListed(log: seq<Entry>, c: Name, f: Name) returns (d: Def)
    requires DropsNameFields(log) && ActiveOf(Replay(log), c, f).Some?
    ensures d in CollOf(Replay(log), c).indexes && d.field == f && ActiveOf(Replay(log), c, f) == Some(d.id)
  {
    hide Replay, ActiveOf, LiveDefs, DroppedAfter, DropsNameFields;
    ReplayActive(log, c, f);
    var i: nat :| Latest(log, c, f, i);
    ActiveIsLatestLive(log, c, f, i);
    d := DefOf(log[i]);
    LiveListed(log, c, |log|, i);
    ReplayIndexes(log, c);
  }

  // ---------------------------------------------------------------------
  // Catching up
  // ---------------------------------------------------------------------

  predicate ValidEntry(e: Entry) {
    ValidIdentifier(e.collection) && ValidIdentifier(e.field) && ValidIdentifier(e.indexId)
  }

  /** Entries up to the state's version are skipped; an entry with a bad name ends the attempt,
      with what was applied before it left in place. */
  function AppliedAll(s: Schema, entries: seq<Entry>): (Schema, bool)
    decreases |entries|
  {
    if entries == [] then (s, true)
    else if entries[0].version <= s.version then AppliedAll(s, entries[1..])
    else if !ValidEntry(entries[0]) then (s, false)
    else AppliedAll(Applied(s, entries[0]), entries[1..])
  }

  /** The entry is newer than the state and than every entry before it in the batch. */
  predicate Advances(s: Schema, entries: seq<Entry>, i: nat) {
    && i < |entries| && entries[i].version > s.version
    && forall j :: 0 <= j < i ==> entries[j].version < entries[i].version
  }

  lemma {:induction false} AdvancesRest(s: Schema, entries: seq<Entry>, i: nat)
    requires entries != [] && i < |entries| - 1
    ensures var t := if entries[0].version <= s.version then s else Applied(s, entries[0]);
      Advances(t, entries[1..], i) <==> Advances(s, entries, i + 1)
  {
    hide Retain;
    var rest := entries[1..];
    assert forall j :: 0 <= j < |rest| ==> rest[j] == entries[j + 1];
    var t := if entries[0].version <= s.version then s else Applied(s, entries[0]);
    if Advances(s, entries, i + 1) {
      assert entries[0].version < entries[i + 1].version;
      assert forall j :: 0 <= j < i ==> rest[j].version == entries[j + 1].version < entries[i + 1].version;
    }
    if Advances(t, rest, i) {
      forall j | 0 <= j < i + 1 ensures entries[j].version < entries[i + 1].version {
        if j > 0 { assert rest[j - 1] == entries[j]; }
      }
    }
  }

  /** A batch, in any order, is applied without an error exactly when every entry that would advance
      the version has valid names. */
  lemma {:induction false} AppliedExactly(s: Schema, entries: seq<Entry>)
    ensures AppliedAll(s, entries).1 <==> forall i: nat :: Advances(s, entries, i) ==> ValidEntry(entries[i])
    decreases |entries|
  {
    if entries != [] {
      var e, rest := entries[0], entries[1..];
      var t := if e.version <= s.version then s else Applied(s, e);
      forall i: nat | i < |rest|
        ensures (Advances(t, rest, i) <==> Advances(s, entries, i + 1)) && rest[i] == entries[i + 1]
      {
        AdvancesRest(s, entries, i);
      }
      assert Advances(s, entries, 0) <==> e.version > s.version;
      AppliedExactly(t, rest);
      hide Applied, ValidEntry, Advances;
      assert (forall i: nat :: Advances(s, entries, i) ==> ValidEntry(entries[i])) <==>
             (Advances(s, entries, 0) ==> ValidEntry(e)) &&
             (forall i: nat :: Advances(t, rest, i) ==> ValidEntry(rest[i])) by {
        BatchSplits(s, t, entries);
      }
    }
  }

  /** In other words: when no such entry has an empty name or a slash or NUL byte in one. */
  lemma {:induction false} FailsOnBadNames(s: Schema, entries: seq<Entry>)
    ensures AppliedAll(s, entries).1 <==>
      forall i: nat :: Advances(s, entries, i) ==>
        Named(entries[i].collection) && Named(entries[i].field) && Named(entries[i].indexId)
  {
    hide AppliedAll, Named, ValidIdentifier;
    AppliedExactly(s, entries);
    forall i: nat | Advances(s, entries, i)
      ensures ValidEntry(entries[i]) <==>
        Named(entries[i].collection) && Named(entries[i].field) && Named(entries[i].indexId)
    {
      IsNamed(entries[i].collection);
      IsNamed(entries[i].field);
      IsNamed(entries[i].indexId);
    }
  }

  lemma {:induction false} BatchSplits(s: Schema, t: Schema, entries: seq<Entry>)
    requires entries != []
    requires forall i: nat :: i < |entries| - 1 ==>
      (Advances(t, entries[1..], i) <==> Advances(s, entries, i + 1)) && entries[1..][i] == entries[i + 1]
    ensures (forall i: nat :: Advances(s, entries, i) ==> ValidEntry(entries[i])) <==>
      (Advances(s, entries, 0) ==> ValidEntry(entries[0])) &&
      (forall i: nat :: Advances(t, entries[1..], i) ==> ValidEntry(entries[1..][i]))
  {
    hide ValidEntry;
    var rest := entries[1..];
    if (Advances(s, entries, 0) ==> ValidEntry(entries[0])) &&
       (forall i: nat :: Advances(t, rest, i) ==> ValidEntry(rest[i])) {
      forall i: nat | Advances(s, entries, i) ensures ValidEntry(entries[i]) {
        if i > 0 { assert Advances(t, rest, i - 1); }
      }
    }
    if forall i: nat :: Advances(s, entries, i) ==> ValidEntry(entries[i]) {
      forall i: nat | Advances(t, rest, i) ensures ValidEntry(rest[i]) {
        assert Advances(s, entries, i + 1);
      }
    }
  }

  /** The first entry of the batch that is newer than the state. */
  predicate FirstNew(s: Schema, entries: seq<Entry>, i: nat) {
    i < |entries| && entries[i].version > s.version && forall j :: 0 <= j < i ==> entries[j].version <= s.version
  }

  /** The batch advances the state and then meets an entry with a bad name. */
  ghost predicate StopsMidway(s: Schema, entries: seq<Entry>) {
    exists i: nat, j: nat :: FirstNew(s, entries, i) && ValidEntry(entries[i]) &&
                             Advances(s, entries, j) && !ValidEntry(entries[j])
  }

  lemma {:induction false} NeverBack(s: Schema, entries: seq<Entry>)
    ensures AppliedAll(s, entries).0.version >= s.version
    decreases |entries|
  {
    hide ValidEntry, Retain;
    if entries != [] {
      NeverBack(if entries[0].version <= s.version then s else Applied(s, entries[0]), entries[1..]);
    }
  }

  lemma {:induction false} FirstNewRest(s: Schema, entries: seq<Entry>, i: nat)
    requires entries != [] && entries[0].version <= s.version && i < |entries| - 1
    ensures FirstNew(s, entries[1..], i) <==> FirstNew(s, entries, i + 1)
  {
    var rest := entries[1..];
    assert forall j :: 0 <= j < |rest| ==> rest[j] == entries[j + 1];
    if FirstNew(s, rest, i) {
      forall j | 0 <= j < i + 1 ensures entries[j].version <= s.version {
        if j > 0 { assert rest[j - 1] == entries[j]; }
      }
    }
  }

  lemma {:induction false} StateAdvances(s: Schema, entries: seq<Entry>)
    ensures AppliedAll(s, entries).0.version > s.version <==>
      exists i: nat :: FirstNew(s, entries, i) && ValidEntry(entries[i])
    decreases |entries|
  {
    hide ValidEntry, Retain;
    if entries != [] {
      var e, rest := entries[0], entries[1..];
      if e.version <= s.version {
        StateAdvances(s, rest);
        if i: nat :| FirstNew(s, rest, i) && ValidEntry(rest[i]) {
          FirstNewRest(s, entries, i);
          assert FirstNew(s, entries, i + 1) && ValidEntry(entries[i + 1]);
        }
        if i: nat :| FirstNew(s, entries, i) && ValidEntry(entries[i]) {
          FirstNewRest(s, entries, i - 1);
          assert FirstNew(s, rest, i - 1) && ValidEntry(rest[i - 1]);
        }
      } else {
        assert FirstNew(s, entries, 0);
        assert forall i: nat :: FirstNew(s, entries, i) ==> i == 0;
        if ValidEntry(e) { NeverBack(Applied(s, e), rest); }
      }
    }
  }

  /** A batch leaves the state ahead of what it reports exactly when its first new entry has valid
      names and a later one that would advance the version has not. */
  lemma {:induction false} MidwayExactly(s: Schema, entries: seq<Entry>)
    ensures !AppliedAll(s, entries).1 && AppliedAll(s, entries).0.version > s.version <==> StopsMidway(s, entries)
  {
    hide AppliedAll, ValidEntry;
    StateAdvances(s, entries);
    AppliedExactly(s, entries);
  }

  /** A good entry and a badly named one: the first is applied, the second is not. */
  lemma {:induction false} StopsMidwayExample()
    ensures var good := Entry(1, CreateIndex, [97], [98], [99]);
      var bad := Entry(2, CreateIndex, [], [98], [100]);
      AppliedAll(EMPTY, [good, bad]) == (Applied(EMPTY, good), false) && Applied(EMPTY, good).version == 1
  {
    var good := Entry(1, CreateIndex, [97], [98], [99]);
    var bad := Entry(2, CreateIndex, [], [98], [100]);
    assert [good, bad][1..] == [bad];
    assert ValidEntry(good) && !ValidEntry(bad);
  }

  function EntriesSince(log: seq<Entry>, version: nat): seq<Entry> {
    if log == [] then []
    else EntriesSince(log[..|log| - 1], version) + (if log[|log| - 1].version > version then [log[|log| - 1]] else [])
  }

  /** Versions increase from 1 and names are valid. */
  predicate GoodLog(log: seq<Entry>) {
    && (forall i :: 0 <= i < |log| ==> log[i].version > 0 && ValidEntry(log[i]))
    && (forall i, j :: 0 <= i < j < |log| ==> log[i].version < log[j].version)
  }

  function VersionAt(log: seq<Entry>, k: nat): nat
    requires k <= |log|
  {
    if k == 0 then 0 else log[k - 1].version
  }

  lemma ReplayVersion(log: seq<Entry>, k: nat)
    requires k <= |log|
    ensures Replay(log[..k]).version == VersionAt(log, k)
  {
  }

  function Further(k: nat, b: nat): nat { if k < b then b else k }

  lemma {:induction false} ReplayMore(log: seq<Entry>, k: nat)
    requires k < |log|
    ensures Applied(Replay(log[..k]), log[k]) == Replay(log[..k + 1])
  {
    assert log[..k + 1][..k] == log[..k];
  }

  /** Applying any stretch of the log that leaves no gap, however much of it is already known,
      gives the state of one full replay up to the later of the two ends. */
  lemma {:induction false} OverlapIsReplay(log: seq<Entry>, k: nat, a: nat, b: nat)
    requires GoodLog(log) && a <= k <= |log| && a <= b <= |log|
    ensures AppliedAll(Replay(log[..k]), log[a..b]) == (Replay(log[..Further(k, b)]), true)
    decreases b - a
  {
    hide Applied, Replay, ValidEntry;
    if a < b {
      ReplayVersion(log, k);
      assert log[a..b][0] == log[a] && log[a..b][1..] == log[a + 1..b];
      assert k > 0 ==> log[k - 1].version >= log[a].version || a >= k;
      if a < k {
        OverlapIsReplay(log, k, a + 1, b);
      } else {
        ReplayMore(log, k);
        OverlapIsReplay(log, k + 1, a + 1, b);
      }
    }
  }

  /** What is newer than a version that falls between two entries is the rest of the log. */
  lemma {:induction false} SinceIsRest(log: seq<Entry>, n: nat, k: nat, v: nat)
    requires k <= n <= |log|
    requires (forall i :: 0 <= i < k ==> log[i].version <= v) && (forall i :: k <= i < n ==> log[i].version > v)
    ensures EntriesSince(log[..n], v) == log[k..n]
    decreases n
  {
    hide EntriesSince;
    if k < n {
      SinceNext(log, n - 1, v);
      SinceIsRest(log, n - 1, k, v);
      assert log[k..n] == log[k..n - 1] + [log[n - 1]];
    } else {
      SinceIsNone(log, n, v);
      assert log[k..n] == [];
    }
  }

  lemma {:induction false} SinceNext(log: seq<Entry>, n: nat, v: nat)
    requires n < |log|
    ensures EntriesSince(log[..n + 1], v) ==
      if log[n].version > v then EntriesSince(log[..n], v) + [log[n]] else EntriesSince(log[..n], v)
  {
    assert log[..n + 1][..n] == log[..n];
  }

  lemma {:induction false} SinceIsNone(log: seq<Entry>, n: nat, v: nat)
    requires n <= |log| && forall i :: 0 <= i < n ==> log[i].version <= v
    ensures EntriesSince(log[..n], v) == []
    decreases n
  {
    if n > 0 {
      SinceNext(log, n - 1, v);
      SinceIsNone(log, n - 1, v);
    }
  }

  /** One round of catching up from any point of the log, by what the other node sends. */
  lemma {:induction false} CatchUpIsReplay(log: seq<Entry>, k: nat)
    requires GoodLog(log) && k <= |log|
    ensures AppliedAll(Replay(log[..k]), EntriesSince(log, Replay(log[..k]).version)) == (Replay(log), true)
  {
    hide Replay, EntriesSince, AppliedAll, ValidEntry;
    ReplayVersion(log, k);
    SinceIsRest(log, |log|, k, VersionAt(log, k));
    OverlapIsReplay(log, k, k, |log|);
    assert log[..|log|] == log;
  }

  /** Stretches of the log, given by their ends, applied one after the other. */
  function Rounds(s: Schema, log: seq<Entry>, stretches: seq<(nat, nat)>): Schema
    requires forall i :: 0 <= i < |stretches| ==> stretches[i].0 <= stretches[i].1 <= |log|
  {
    if stretches == [] then s
    else
      var m := |stretches| - 1;
      AppliedAll(Rounds(s, log, stretches[..m]), log[stretches[m].0..stretches[m].1]).0
  }

  function EndOf(k: nat, stretches: seq<(nat, nat)>): nat {
    if stretches == [] then k else Further(EndOf(k, stretches[..|stretches| - 1]), stretches[|stretches| - 1].1)
  }

  /** Each stretch begins no later than where the ones before it have come to. */
  predicate NoGaps(k: nat, stretches: seq<(nat, nat)>) {
    forall i :: 0 <= i < |stretches| ==> stretches[i].0 <= EndOf(k, stretches[..i])
  }

  /** Any number of overlapping stretches gives the state of one full replay up to the furthest end. */
  lemma {:induction false} RoundsAreReplay(log: seq<Entry>, k: nat, stretches: seq<(nat, nat)>)
    requires GoodLog(log) && k <= |log| && NoGaps(k, stretches)
    requires forall i :: 0 <= i < |stretches| ==> stretches[i].0 <= stretches[i].1 <= |log|
    ensures EndOf(k, stretches) <= |log|
    ensures Rounds(Replay(log[..k]), log, stretches) == Replay(log[..EndOf(k, stretches)])
    decreases |stretches|
  {
    hide Replay, AppliedAll, GoodLog;
    if stretches != [] {
      var m := |stretches| - 1;
      var rest := stretches[..m];
      assert forall i :: 0 <= i < m ==> rest[..i] == stretches[..i] && rest[i] == stretches[i];
      RoundsAreReplay(log, k, rest);
      OverlapIsReplay(log, EndOf(k, rest), stretches[m].0, stretches[m].1);
    }
  }

  /** What a provider that has the log sends: a stretch that starts no later than the first entry after `since`. */
  ghost predicate Honest(log: seq<Entry>, since: nat, sent: seq<Entry>) {
    exists a: nat, b: nat :: a <= b <= |log| && sent == log[a..b] && forall i :: 0 <= i < a ==> log[i].version <= since
  }

  /** The state is that of a full replay of the first `k` entries, or of more. */
  ghost predicate Within(log: seq<Entry>, s: Schema, k: nat) {
    exists n :: k <= n <= |log| && s == Replay(log[..n])
  }

  lemma {:induction false} HonestStep(log: seq<Entry>, k: nat, s: Schema, since: nat, sent: seq<Entry>)
    requires GoodLog(log) && k <= |log| && Within(log, s, k) && since <= s.version && Honest(log, since, sent)
    ensures AppliedAll(s, sent).1 && Within(log, AppliedAll(s, sent).0, k)
    ensures AppliedAll(s, sent).0.version >= s.version
  {
    hide Replay, AppliedAll, ValidEntry;
    var n :| k <= n <= |log| && s == Replay(log[..n]);
    var a: nat, b: nat :| a <= b <= |log| && sent == log[a..b] && forall i :: 0 <= i < a ==> log[i].version <= since;
    ReplayVersion(log, n);
    assert n < |log| ==> log[n].version > s.version;
    OverlapIsReplay(log, n, a, b);
    ReplayVersion(log, Further(n, b));
  }

  class DefaultSchemaManager {
    var state: Schema
    var version: nat

    constructor ()
      ensures state == EMPTY && version == 0
    {
      state, version := EMPTY, 0;
    }

    method ApplyEntry(e: Entry)
      modifies this
      ensures state == Applied(old(state), e) && version == old(version)
    {
      hide Retain;
      var c := CollOf(state, e.collection);
      match e.op
      case CreateIndex =>
        state := state.(collections := state.collections[e.collection := Coll(c.indexes + [DefOf(e)], e.version)]);
        state := state.(active := state.active[e.collection := FieldsOf(state, e.collection)[e.field := e.indexId]]);
        state := state.(version := e.version);
      case DropIndex =>
        var left := Retain(c.indexes, e.indexId);
        state := state.(collections := state.collections[e.collection := Coll(left, e.version)]);
        if e.collection in state.active {
          var active := state.active[e.collection];
          if e.field in active && active[e.field] == e.indexId {
            state := state.(active := state.active[e.collection := active - {e.field}]);
          }
        }
        state := state.(version := e.version);
    }

    /** The batch fails exactly when an entry that would advance the version has a bad name. A
        published version that was up to date is left behind exactly when the batch stops midway. */
    method ApplyEntries(entries: seq<Entry>) returns (ok: bool)
      modifies this
      ensures (state, ok) == AppliedAll(old(state), entries)
      ensures ok <==> forall i: nat :: Advances(old(state), entries, i) ==> ValidEntry(entries[i])
      ensures version == if ok then state.version else old(version)
      ensures old(version) == old(state).version ==> (version < state.version <==> StopsMidway(old(state), entries))
    {
      hide Applied, ValidEntry, Advances, StopsMidway;
      AppliedExactly(state, entries);
      MidwayExactly(state, entries);
      NeverBack(state, entries);
      assert entries[0..] == entries;
      for i := 0 to |entries|
        invariant AppliedAll(state, entries[i..]) == AppliedAll(old(state), entries)
        invariant version == old(version)
      {
        assert entries[i..][1..] == entries[i + 1..];
        if entries[i].version <= state.version { continue; }
        if !ValidEntry(entries[i]) { return false; }
        ApplyEntry(entries[i]);
      }
      version := state.version;
      return true;
    }

    /** Up to three rounds with a provider that has the log, from a state that may be ahead of the
        published version. Whatever stretches it sends, and even if it fails in some round, the
        state stays that of a full replay of some prefix and never falls back. With a provider that
        always sends everything after the version it is asked about, and when the announced version
        is ahead, state and published version become those of the whole log, even if a snapshot
        cannot be saved, which ends the call with an error. */
    method ConvergeFromGossip(remote: nat, provider: (nat, nat) -> Option<seq<Entry>>, saves: nat -> bool,
            ghost log: seq<Entry>, ghost k: nat)
      returns (ok: bool)
      requires GoodLog(log) && k <= |log| && state == Replay(log[..k]) && version <= state.version
      requires forall round: nat, since: nat :: provider(round, since).Some? ==>
        Honest(log, since, provider(round, since).value)
      modifies this
      ensures Within(log, state, k) && old(version) <= version <= state.version
      ensures remote <= old(version) ==> ok && state == old(state)
      ensures remote > old(version) && Sends(provider, log) ==> state == Replay(log) && version == state.version
      ensures Sends(provider, log) && (forall round: nat :: saves(round)) ==> ok
      ensures remote > old(version) == old(state).version && OneByOne(provider, log) &&
              (forall round: nat :: saves(round)) ==>
        ok && EndsWith(log, remote, k, state)
    {
      hide Replay, AppliedAll, GoodLog, Honest, Within, Sends, ValidEntry, Advances, StopsMidway;
      WithinSelf(log, k);
      if remote <= version { return true; }
      hide OneByOne, EndsWith, Underway;
      ghost var single := version == state.version && OneByOne(provider, log) && forall round: nat :: saves(round);
      if single { SetsOut(log, remote, k); }
      for round := 0 to 3
        invariant single ==> Underway(log, remote, k, round, state, version)
        invariant Within(log, state, k) && old(version) <= version <= state.version
        invariant Sends(provider, log) ==> (round > 0 ==> version == state.version) &&
                                           (state == Replay(log) || (round == 0 && state == Replay(log[..k])))
      {
        var missing := provider(round, version);
        if Sends(provider, log) { RoundIsReplay(provider, log, k, round, state, version); }
        if missing.None? { return false; }
        HonestStep(log, k, state, version, missing.value);
        if single { NextOne(provider, log, remote, k, round, version, state); }
        if missing.value != [] {
          var applied := ApplyEntries(missing.value);
          if !applied || !saves(round) { return false; }
          if version >= remote { return true; }
        } else {
          NoEntries(state);
        }
      }
      if single { UnderwayStops(log, remote, k, state, version); }
      return true;
    }
  }

  /** The provider answers with the one entry after the version it is asked about, if there is one. */
  ghost predicate OneByOne(provider: (nat, nat) -> Option<seq<Entry>>, log: seq<Entry>) {
    forall round: nat, m: nat :: m <= |log| ==>
      provider(round, VersionAt(log, m)) == Some(log[m..if m < |log| then m + 1 else m])
  }

  /** Where a call ends that gets one entry a round: after three of them, at the end of the log, or at the
      first version that was announced or is later. */
  predicate Stops(log: seq<Entry>, remote: nat, k: nat, m: nat)
    requires k <= m <= |log|
  {
    && m <= k + 3 && (m == k + 3 || m == |log| || VersionAt(log, m) >= remote)
    && (m > k ==> VersionAt(log, m - 1) < remote)
  }

  ghost predicate EndsWith(log: seq<Entry>, remote: nat, k: nat, s: Schema) {
    exists m :: k <= m <= |log| && Stops(log, remote, k, m) && s == Replay(log[..m])
  }

  /** Such a call after some rounds, when it goes on. */
  ghost predicate Underway(log: seq<Entry>, remote: nat, k: nat, rounds: nat, s: Schema, version: nat) {
    version < remote && exists m :: k <= m <= |log| && s == Replay(log[..m]) && Reached(log, k, m, rounds, version)
  }

  predicate Reached(log: seq<Entry>, k: nat, m: nat, rounds: nat, version: nat)
    requires k <= m <= |log|
  {
    version == VersionAt(log, m) && m <= k + rounds && (m == k + rounds || m == |log|)
  }

  lemma {:induction false} SetsOut(log: seq<Entry>, remote: nat, k: nat)
    requires GoodLog(log) && k <= |log| && Replay(log[..k]).version < remote
    ensures Underway(log, remote, k, 0, Replay(log[..k]), Replay(log[..k]).version)
  {
    hide Replay, GoodLog;
    ReplayVersion(log, k);
    assert Reached(log, k, k, 0, Replay(log[..k]).version);
  }

  lemma {:induction false} UnderwayStops(log: seq<Entry>, remote: nat, k: nat, s: Schema, version: nat)
    requires Underway(log, remote, k, 3, s, version) && GoodLog(log)
    ensures EndsWith(log, remote, k, s)
  {
    hide Replay, GoodLog;
    var m :| k <= m <= |log| && s == Replay(log[..m]) && Reached(log, k, m, 3, version);
    LowerBefore(log, m);
    assert Stops(log, remote, k, m);
  }

  lemma {:induction false} LowerBefore(log: seq<Entry>, m: nat)
    requires GoodLog(log) && m <= |log|
    ensures m > 0 ==> VersionAt(log, m - 1) <= VersionAt(log, m)
  {
    hide ValidEntry;
  }

  lemma {:induction false} NextOne(provider: (nat, nat) -> Option<seq<Entry>>, log: seq<Entry>, remote: nat, k: nat,
          round: nat, version: nat, s: Schema)
    requires GoodLog(log) && OneByOne(provider, log) && round < 3 && Underway(log, remote, k, round, s, version)
    ensures provider(round, version).Some? && AppliedAll(s, provider(round, version).value).1
    ensures var next := AppliedAll(s, provider(round, version).value).0;
      && (next.version >= remote ==> EndsWith(log, remote, k, next))
      && (next.version < remote ==> Underway(log, remote, k, round + 1, next, next.version))
    ensures s.version == version
  {
    hide Replay, AppliedAll, GoodLog;
    var m :| k <= m <= |log| && s == Replay(log[..m]) && Reached(log, k, m, round, version);
    var n := if m < |log| then m + 1 else m;
    assert provider(round, VersionAt(log, m)) == Some(log[m..n]);
    OverlapIsReplay(log, m, m, n);
    ReplayVersion(log, n);
    ReplayVersion(log, m);
    var next := Replay(log[..n]);
    assert Reached(log, k, n, round + 1, next.version);
    if next.version >= remote { assert Stops(log, remote, k, n); }
  }

  /** The provider answers with everything after the version it is asked about. */
  ghost predicate Sends(provider: (nat, nat) -> Option<seq<Entry>>, log: seq<Entry>) {
    forall round: nat, since: nat :: provider(round, since) == Some(EntriesSince(log, since))
  }

  lemma WithinSelf(log: seq<Entry>, k: nat)
    requires k <= |log|
    ensures Within(log, Replay(log[..k]), k)
  {
  }

  lemma NoEntries(s: Schema)
    ensures AppliedAll(s, []) == (s, true)
  {
  }

  lemma {:induction false} Boundary(log: seq<Entry>, n: nat, v: nat) returns (a: nat)
    requires GoodLog(log) && n <= |log|
    ensures a <= n
    ensures (forall i :: 0 <= i < a ==> log[i].version <= v) && (forall i :: a <= i < n ==> log[i].version > v)
    decreases n
  {
    hide ValidEntry;
    if n == 0 || log[n - 1].version <= v {
      a := n;
    } else {
      a := Boundary(log, n - 1, v);
    }
  }

  lemma {:induction false} RoundIsReplay(provider: (nat, nat) -> Option<seq<Entry>>, log: seq<Entry>, k: nat,
          round: nat, s: Schema, since: nat)
    requires GoodLog(log) && k <= |log| && Sends(provider, log) && (s == Replay(log) || s == Replay(log[..k]))
    requires since <= s.version
    ensures provider(round, since).Some? && AppliedAll(s, provider(round, since).value) == (Replay(log), true)
    ensures provider(round, since).value == [] ==> since == s.version
  {
    hide Replay, AppliedAll, EntriesSince, ValidEntry;
    assert log[..|log|] == log;
    var n := if s == Replay(log) then |log| else k;
    var a := Boundary(log, |log|, since);
    SinceIsRest(log, |log|, a, since);
    ReplayVersion(log, n);
    assert n < |log| ==> log[n].version > s.version;
    OverlapIsReplay(log, n, a, |log|);
  }
}
