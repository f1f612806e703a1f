/**
 Crash recovery of the nearest-neighbour sidecar: the index in memory mirrors
 `docs_vec` after each commit, its saved copy may lag, and reopening loads the
 newest missing rows only.
 */
module Sidecar {
  import opened Prelude

  // ---------- Reopening ----------

  ghost predicate Ascending(rows: seq<I64>) {
    forall i, j :: 0 <= i < j < |rows| ==> rows[i] < rows[j]
  }

  ghost function RowSet(rows: seq<I64>): set<I64> {
    set i | 0 <= i < |rows| :: rows[i]
  }

  /** `saved` is what an index holds after mirroring some first rows and no others. */
  ghost predicate IsPrefixSet(saved: set<I64>, rows: seq<I64>) {
    |saved| <= |rows| && saved == RowSet(rows[..|saved|])
  }

  /** What reopening makes of a loaded index: as many of the newest rows as the count is short. */
  ghost function Recover(rows: seq<I64>, loaded: set<I64>): set<I64> {
    if |loaded| < |rows| then loaded + RowSet(rows[|loaded|..]) else loaded
  }

  class Index {
    var keys: set<I64>

    constructor (loaded: set<I64>)
      ensures keys == loaded
    {
      keys := loaded;
    }

    /** Fails on a key already present. */
    method Insert(id: I64) returns (ok: bool)
      modifies this
      ensures ok <==> id !in old(keys)
      ensures keys == old(keys) + {id}
    {
      ok := id !in keys;
      if ok { keys := keys + {id}; }
    }

    /** A duplicate is skipped, not an error. */
    method InsertOrSkip(id: I64) returns (added: bool)
      modifies this
      ensures added <==> id !in old(keys)
      ensures keys == old(keys) + {id}
    {
      added := Insert(id);
    }

    /** Load the newest `deficit` rows, newest first. */
    method RebuildTail(rows: seq<I64>, deficit: nat) returns (inserted: nat)
      requires deficit <= |rows|
      modifies this
      ensures keys == old(keys) + RowSet(rows[|rows| - deficit..])
      ensures inserted == |keys| - |old(keys)|
    {
      inserted := 0;
      var i := |rows|;
      while i > |rows| - deficit
        invariant |rows| - deficit <= i <= |rows|
        invariant keys == old(keys) + RowSet(rows[i..])
        invariant inserted == |keys| - |old(keys)|
      {
        i := i - 1;
        ghost var before := keys;
        var added := InsertOrSkip(rows[i]);
        assert rows[i..] == [rows[i]] + rows[i + 1..];
        AddFirst(rows[i], rows[i + 1..]);
        if added { inserted := inserted + 1; } else { assert keys == before; }
      }
    }
  }

  lemma AddFirst(x: I64, rest: seq<I64>)
    ensures RowSet([x] + rest) == RowSet(rest) + {x}
  {
    var s := [x] + rest;
    assert s[0] == x;
    assert forall i :: 0 <= i < |rest| ==> s[i + 1] == rest[i];
    assert forall i :: 0 < i < |s| ==> s[i] == rest[i - 1];
  }

  /** What loading the sidecar gives: its ids; nothing, when it is missing or corrupt; or any other error. */
  datatype Load = Usable(ids: set<I64>) | NotUsable | Failed

  function Held(load: Load): set<I64> {
    if load.Usable? then load.ids else {}
  }

  /**
   Open the index: an unusable sidecar counts as empty, and the newest rows it is
   short of are brought in; any other load error fails the opening.
   */
  method Open(rows: seq<I64>, load: Load) returns (index: Option<Index>, inserted: nat)
    ensures index.None? <==> load.Failed?
    ensures index.Some? ==> fresh(index.value) && index.value.keys == Recover(rows, Held(load))
    ensures index.Some? ==> inserted == |index.value.keys| - |Held(load)|
    ensures index.None? ==> inserted == 0
  {
    inserted := 0;
    if load.Failed? {
      return None, inserted;
    }
    var loaded := Held(load);
    var started := new Index(loaded);
    if |loaded| < |rows| {
      var deficit := |rows| - |loaded|;
      inserted := started.RebuildTail(rows, deficit);
    }
    index := Some(started);
  }

  // ---------- When reopening is right ----------

  lemma {:induction false} RowCount(rows: seq<I64>)
    requires Ascending(rows)
    ensures |RowSet(rows)| == |rows|
  {
    if rows != [] {
      var n := |rows| - 1;
      RowCount(rows[..n]);
      assert RowSet(rows) == RowSet(rows[..n]) + {rows[n]};
      assert rows[n] !in RowSet(rows[..n]);
    }
  }

  lemma SplitRows(rows: seq<I64>, k: nat)
    requires Ascending(rows) && k <= |rows|
    ensures RowSet(rows) == RowSet(rows[..k]) + RowSet(rows[k..]) && RowSet(rows[..k]) !! RowSet(rows[k..])
    ensures |RowSet(rows[..k])| == k && |RowSet(rows[k..])| == |rows| - k
  {
    RowCount(rows[..k]);
    RowCount(rows[k..]);
    forall x | x in RowSet(rows)
      ensures x in RowSet(rows[..k]) + RowSet(rows[k..])
    {
      var i :| 0 <= i < |rows| && rows[i] == x;
      if i < k {
        assert rows[..k][i] == x;
      } else {
        assert rows[k..][i - k] == x;
      }
    }
  }

  lemma EqualBySize(a: set<I64>, b: set<I64>)
    requires a <= b && |a| == |b|
    ensures a == b
  {
    assert b == a + (b - a);
  }

  /** Reopening restores the index exactly when the loaded ids are the first rows. */
  lemma RecoversIff(rows: seq<I64>, loaded: set<I64>)
    requires Ascending(rows)
    ensures Recover(rows, loaded) == RowSet(rows) <==> IsPrefixSet(loaded, rows)
  {
    RowCount(rows);
    var k := |loaded|;
    if k < |rows| {
      SplitRows(rows, k);
      var head, tail := RowSet(rows[..k]), RowSet(rows[k..]);
      if Recover(rows, loaded) == RowSet(rows) {
        assert head <= loaded;
        EqualBySize(head, loaded);
      }
    } else if k == |rows| {
      assert rows[..k] == rows;
    }
  }

  /** Then only missing rows are loaded, and all of them. */
  lemma TailIsMissing(rows: seq<I64>, loaded: set<I64>)
    requires Ascending(rows) && IsPrefixSet(loaded, rows)
    ensures RowSet(rows[|loaded|..]) == RowSet(rows) - loaded
  {
    SplitRows(rows, |loaded|);
  }

  /** A delete and a put after the last save leave the count right and the index wrong. */
  lemma DeleteDefeatsRecovery()
    ensures Recover([2, 3, 4], {1, 2, 3}) != RowSet([2, 3, 4])
  {
    var rows: seq<I64> := [2, 3, 4];
    assert rows[2] == 4;
    assert 4 in RowSet(rows);
    RowCount(rows);
    assert |{1, 2, 3}| == 3;
  }

  // ---------- Runs with crashes ----------

  /** A running store: its index, and committed rows not yet mirrored. */
  datatype Session = Session(index: set<I64>, waiting: seq<I64>)
  datatype World = World(docsVec: seq<I64>, saved: Option<set<I64>>, session: Option<Session>)

  datatype Step =
    | OpenStore
    | FailedOpen              // the load failed for another reason
    | Commit(rows: seq<I64>)  // one transaction of new rows
    | Mirror                  // one index insert after the commit
    | Save                    // sidecar written
    | Close                   // saved on drop
    | Crash                   // memory lost, at any point
    | LoseSidecar             // the file is missing or unreadable

  const START := World([], None, None)

  ghost predicate Legal(w: World, s: Step) {
    match s
    case OpenStore => w.session.None?
    case FailedOpen => w.session.None?
    case Commit(rows) => w.session.Some? && w.session.value.waiting == [] && Ascending(w.docsVec + rows)
    case Mirror => w.session.Some? && w.session.value.waiting != []
    case Save => w.session.Some?
    case Close => w.session.Some?
    case Crash => true
    case LoseSidecar => true
  }

  ghost function Loaded(w: World): set<I64> {
    if w.saved.Some? then w.saved.value else {}
  }

  ghost function Apply(w: World, s: Step): World
    requires Legal(w, s)
  {
    match s
    case OpenStore => w.(session := Some(Session(Recover(w.docsVec, Loaded(w)), [])))
    case FailedOpen => w
    case Commit(rows) => w.(docsVec := w.docsVec + rows, session := Some(w.session.value.(waiting := rows)))
    case Mirror =>
      var ses := w.session.value;
      w.(session := Some(Session(ses.index + {ses.waiting[0]}, ses.waiting[1..])))
    case Save => w.(saved := Some(w.session.value.index))
    case Close => w.(saved := Some(w.session.value.index), session := None)
    case Crash => w.(session := None)
    case LoseSidecar => w.(saved := None)
  }

  /** The saved ids are first rows in id order; the index holds all rows but those waiting. */
  ghost predicate Inv(w: World) {
    && Ascending(w.docsVec)
    && (w.saved.Some? ==> IsPrefixSet(w.saved.value, w.docsVec))
    && (w.session.Some? ==>
          var ses := w.session.value;
          && IsPrefixSet(ses.index, w.docsVec)
          && ses.waiting == w.docsVec[|ses.index|..])
  }

  lemma PrefixGrows(saved: set<I64>, rows: seq<I64>, more: seq<I64>)
    requires IsPrefixSet(saved, rows)
    ensures IsPrefixSet(saved, rows + more)
  {
    assert (rows + more)[..|saved|] == rows[..|saved|];
  }

  lemma MirrorKeeps(rows: seq<I64>, index: set<I64>)
    requires Ascending(rows) && IsPrefixSet(index, rows) && |index| < |rows|
    ensures IsPrefixSet(index + {rows[|index|]}, rows) && |index + {rows[|index|]}| == |index| + 1
  {
    hide RowSet;
    var k := |index|;
    NextRow(rows, k);
    RowCount(rows[..k + 1]);
  }

  lemma NextRow(rows: seq<I64>, k: nat)
    requires k < |rows|
    ensures RowSet(rows[..k + 1]) == RowSet(rows[..k]) + {rows[k]}
  {
    var before, after := rows[..k], rows[..k + 1];
    assert after[k] == rows[k] && forall i :: 0 <= i < k ==> after[i] == before[i];
  }

  lemma EmptyIsPrefix(rows: seq<I64>)
    ensures IsPrefixSet({}, rows)
  {
    assert rows[..0] == [];
  }

  lemma StepKeeps(w: World, s: Step)
    requires Inv(w) && Legal(w, s)
    ensures Inv(Apply(w, s))
  {
    match s
    case OpenStore =>
      EmptyIsPrefix(w.docsVec);
      RecoversIff(w.docsVec, Loaded(w));
      RowCount(w.docsVec);
      assert w.docsVec[..|w.docsVec|] == w.docsVec;
    case Commit(rows) =>
      var ses := w.session.value;
      PrefixGrows(ses.index, w.docsVec, rows);
      if w.saved.Some? { PrefixGrows(w.saved.value, w.docsVec, rows); }
      assert (w.docsVec + rows)[|ses.index|..] == rows;
    case Mirror =>
      MirrorKeeps(w.docsVec, w.session.value.index);
    case _ =>
  }

  ghost predicate IsRun(worlds: seq<World>, steps: seq<Step>) {
    && |worlds| == |steps| + 1 && worlds[0] == START
    && forall k :: 0 <= k < |steps| ==> Legal(worlds[k], steps[k]) && worlds[k + 1] == Apply(worlds[k], steps[k])
  }

  lemma {:induction false} RunKeeps(worlds: seq<World>, steps: seq<Step>, k: nat)
    requires IsRun(worlds, steps) && k < |worlds|
    ensures Inv(worlds[k])
  {
    if k > 0 {
      RunKeeps(worlds, steps, k - 1);
      StepKeeps(worlds[k - 1], steps[k - 1]);
    }
  }

  /**
   In every append-only run, crashes anywhere: reopening gives an index equal to
   `docs_vec`, loading exactly the rows the sidecar lacked; and whenever nothing
   waits to be mirrored the index equals `docs_vec`.
   */
  lemma EveryReopenRecovers(worlds: seq<World>, steps: seq<Step>, k: nat)
    requires IsRun(worlds, steps) && k < |steps|
    ensures steps[k].OpenStore? ==>
      && worlds[k + 1].session.value.index == RowSet(worlds[k].docsVec)
      && |Loaded(worlds[k])| <= |worlds[k].docsVec|
      && RowSet(worlds[k].docsVec[|Loaded(worlds[k])|..]) == RowSet(worlds[k].docsVec) - Loaded(worlds[k])
    ensures worlds[k].session.Some? && worlds[k].session.value.waiting == [] ==>
      worlds[k].session.value.index == RowSet(worlds[k].docsVec)
  {
    RunKeeps(worlds, steps, k);
    var w := worlds[k];
    if steps[k].OpenStore? {
      EmptyIsPrefix(w.docsVec);
      RecoversIff(w.docsVec, Loaded(w));
      TailIsMissing(w.docsVec, Loaded(w));
    }
    if w.session.Some? && w.session.value.waiting == [] {
      assert w.docsVec[..|w.session.value.index|] == w.docsVec;
    }
  }
}
