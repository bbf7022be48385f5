/**
 Fan-out of a saturated project into warm clones (reconcileFanout in
 internal/controller/buildproject_controller.go).
 */
module Fanout {
  import opened Base
  import opened Keys

  /** The clone names a project wants. */
  function Wanted(key: string, fanout: int): set<string> {
    set i | 1 <= i <= fanout :: CloneKey(key, i)
  }

  /** What the prune takes: a listed clone that is not wanted and on which a direct read finds no build. */
  predicate Prunable(key: string, fanout: int, listed: set<string>, busy: set<string>, c: string) {
    c in listed && c !in Wanted(key, fanout) && c !in busy
  }

  /** The clones the prune leaves. listed is the cached listing, which may lag the stored clones. */
  function Kept(key: string, fanout: int, clones: set<string>, listed: set<string>, busy: set<string>): set<string> {
    set c | c in clones && !Prunable(key, fanout, listed, busy, c)
  }

  /** The clones one pass wants to create: those a cached read does not find, when there is a snapshot
      to seed them from. */
  function Missing(key: string, fanout: int, snapshot: bool, cached: set<string>): set<string> {
    if fanout > 0 && snapshot then Wanted(key, fanout) - cached else {}
  }

  /** The clones one pass leaves when no call fails. */
  function Converged(
    key: string, fanout: int, snapshot: bool, clones: set<string>, listed: set<string>, busy: set<string>, cached: set<string>)
    : set<string>
  {
    Kept(key, fanout, clones, listed, busy) + Missing(key, fanout, snapshot, cached)
  }

  predicate SurplusBusy(key: string, fanout: int, listed: set<string>, busy: set<string>) {
    exists c | c in listed :: c !in Wanted(key, fanout) && c in busy
  }

  /** The BuildProjects of the namespace: those labelled as clones of one project, and the names taken by
      others. */
  class CloneSet {
    var clones: set<string>
    const others: set<string>

    constructor (clones: set<string>, others: set<string>)
      ensures this.clones == clones && this.others == others
    {
      this.clones, this.others := clones, others;
    }

    /** listing is the cached list of labelled clones, in order, and cached the names a cached read finds:
        both may lag. busy are the clones on which a direct read finds a live build. A clone listed but gone
        is passed over; a name found missing but taken fails the pass. */
    method ReconcileFanout(
      key: string, fanout: int, snapshot: bool, listing: seq<string>, busy: set<string>, cached: set<string>)
      returns (deferred: bool, failed: bool)
      modifies this`clones
      ensures var listed := set c | c in listing;
        && (deferred <==> SurplusBusy(key, fanout, listed, busy))
        && (failed <==>
              !(Missing(key, fanout, snapshot, cached) !! Kept(key, fanout, old(clones), listed, busy) + others))
        && (!failed ==> clones == Converged(key, fanout, snapshot, old(clones), listed, busy, cached))
        && Kept(key, fanout, old(clones), listed, busy) <= clones
        && clones <= Converged(key, fanout, snapshot, old(clones), listed, busy, cached)
    {
      var want := WantedSet(key, fanout);
      deferred := Prune(want, listing, busy);
      failed := false;
      if fanout <= 0 || !snapshot {
        return;
      }
      failed := Create(key, fanout, cached);
    }

    /** The names of the wanted clones. */
    method WantedSet(key: string, fanout: int) returns (want: set<string>)
      ensures want == Wanted(key, fanout)
    {
      want := {};
      var i := 1;
      while i <= fanout
        invariant 1 <= i && i <= Max(fanout, 0) + 1
        invariant want == Wanted(key, i - 1)
      {
        WantedGrows(key, i);
        want := want + {CloneKey(key, i)};
        i := i + 1;
      }
      NothingWanted(key, fanout);
    }

    /** The prune loop. */
    method Prune(want: set<string>, listing: seq<string>, busy: set<string>) returns (deferred: bool)
      modifies this`clones
      ensures deferred <==> exists c | c in listing :: c !in want && c in busy
      ensures clones == set c | c in old(clones) && !(c in listing && c !in want && c !in busy)
    {
      deferred := false;
      ghost var before := clones;
      for j := 0 to |listing|
        invariant deferred <==> exists c | c in listing[..j] :: c !in want && c in busy
        invariant clones == set c | c in before && !(c in listing[..j] && c !in want && c !in busy)
      {
        var clone := listing[j];
        assert forall c :: c in listing[..j + 1] <==> c in listing[..j] || c == clone;
        if clone !in want {
          if clone in busy {
            deferred := true;
          } else {
            clones := clones - {clone};
          }
        }
      }
      assert listing[..|listing|] == listing;
    }

    /** The create loop: it stops at the first name that is taken after all. */
    method Create(key: string, fanout: int, cached: set<string>) returns (failed: bool)
      requires fanout > 0
      modifies this`clones
      ensures failed <==> !(Wanted(key, fanout) - cached !! old(clones) + others)
      ensures !failed ==> clones == old(clones) + (Wanted(key, fanout) - cached)
      ensures old(clones) <= clones <= old(clones) + (Wanted(key, fanout) - cached)
    {
      ghost var before := clones;
      var i := 1;
      while i <= fanout
        invariant 1 <= i <= fanout + 1
        invariant clones == before + (Wanted(key, i - 1) - cached)
        invariant Wanted(key, i - 1) - cached !! before + others
      {
        WantedGrows(key, i);
        var ckey := CloneKey(key, i);
        NameIsNew(key, i);
        if ckey !in cached {
          if ckey in clones || ckey in others {
            TakenEarlier(key, i, fanout);
            return true;
          }
          clones := clones + {ckey};
        }
        i := i + 1;
      }
      failed := false;
    }
  }

  lemma NothingWanted(key: string, fanout: int)
    ensures Wanted(key, fanout) == Wanted(key, Max(fanout, 0))
  {
    if fanout < 0 {
      assert Wanted(key, fanout) == {} && Wanted(key, 0) == {};
    }
  }

  lemma {:induction false} WantedNests(key: string, i: nat, fanout: nat)
    requires i <= fanout
    ensures Wanted(key, i) <= Wanted(key, fanout)
    decreases fanout
  {
    if i < fanout {
      WantedNests(key, i, fanout - 1);
      WantedGrows(key, fanout);
    }
  }

  lemma TakenEarlier(key: string, i: nat, fanout: nat)
    requires 1 <= i <= fanout
    ensures Wanted(key, i - 1) <= Wanted(key, fanout) && CloneKey(key, i) in Wanted(key, fanout)
  {
    WantedNests(key, i - 1, fanout);
  }

  lemma WantedGrows(key: string, i: nat)
    requires i >= 1
    ensures Wanted(key, i) == Wanted(key, i - 1) + {CloneKey(key, i)}
  {
    forall c ensures c in Wanted(key, i) <==> c in Wanted(key, i - 1) + {CloneKey(key, i)} {
      if c in Wanted(key, i) {
        var k :| 1 <= k <= i && c == CloneKey(key, k);
        if k < i {
          assert c in Wanted(key, i - 1);
        }
      }
    }
  }

  /** Keys of other projects, and this project's own canonical and fork keys, are never clone names of it. */
  lemma OthersAreNotWanted(key: string, fanout: int, role: Role, key': string)
    requires IsCanonical(key) && IsCanonical(key') && (key' != key || !role.Clone?)
    ensures KeyOf(role, key') !in Wanted(key, fanout)
  {
    forall i: nat | 1 <= i <= fanout ensures CloneKey(key, i) != KeyOf(role, key') {
      KeysNeverCollide(Clone(i), key, role, key');
    }
  }

  /** No two clones of a project share a name. */
  lemma CloneNamesDiffer(key: string, i: nat, j: nat)
    requires CloneKey(key, i) == CloneKey(key, j)
    ensures i == j
  {
    var s := CloneKey(key, i);
    assert s[1..|s| - |key|] == Itoa(i) && CloneKey(key, j)[1..|s| - |key|] == Itoa(j);
    ItoaRoundTrip(i);
    ItoaRoundTrip(j);
  }

  lemma NameIsNew(key: string, i: nat)
    requires i >= 1
    ensures CloneKey(key, i) !in Wanted(key, i - 1)
  {
    forall k: nat | 1 <= k <= i - 1 ensures CloneKey(key, k) != CloneKey(key, i) {
      if CloneKey(key, k) == CloneKey(key, i) {
        CloneNamesDiffer(key, k, i);
        assert false;
      }
    }
  }

  /** Each wanted clone has a name of its own: as many names as clones asked for. */
  lemma {:induction false} WantedSize(key: string, fanout: nat)
    ensures |Wanted(key, fanout)| == fanout
  {
    if fanout == 0 {
      assert Wanted(key, fanout) == {};
    } else {
      WantedSize(key, fanout - 1);
      WantedGrows(key, fanout);
      NameIsNew(key, fanout);
    }
  }

  /** Under a cache that has caught up, with a snapshot and no busy surplus clone, one pass does not fail
      and leaves exactly clones 1..fanout. */
  lemma OnePassConverges(key: string, fanout: int, clones: set<string>, busy: set<string>, others: set<string>)
    requires Wanted(key, fanout) !! others && !SurplusBusy(key, fanout, clones, busy)
    ensures Converged(key, fanout, true, clones, clones, busy, clones + others) == Wanted(key, fanout)
    ensures Missing(key, fanout, true, clones + others) !! Kept(key, fanout, clones, clones, busy) + others
  {
    if fanout <= 0 {
      assert Wanted(key, fanout) == {};
    }
  }

  /** A second pass changes nothing, whatever the first left, once the cache shows what it left and as
      long as the same clones are busy. */
  lemma SecondPassIsNoop(
    key: string, fanout: int, snapshot: bool, clones: set<string>, listed: set<string>, busy: set<string>, cached: set<string>,
    others: set<string>)
    requires clones <= listed && cached <= clones + others
    ensures var once := Converged(key, fanout, snapshot, clones, listed, busy, cached);
      Converged(key, fanout, snapshot, once, once, busy, once + others) == once
  {
  }

  /** Without a snapshot to seed them from, or with fan-out switched off, no clone is created. */
  lemma NothingToSeedFrom(
    key: string, fanout: int, snapshot: bool, clones: set<string>, listed: set<string>, busy: set<string>, cached: set<string>)
    requires fanout <= 0 || !snapshot
    ensures Converged(key, fanout, snapshot, clones, listed, busy, cached) <= clones
  {
  }

  /** However stale the listing, the pass prunes no wanted and no busy clone; and a busy surplus clone on
      the listing makes it come back. */
  lemma BusySurplusSurvives(
    key: string, fanout: int, clones: set<string>, listed: set<string>, busy: set<string>, c: string)
    requires c in clones && (c in busy || c in Wanted(key, fanout))
    ensures c in Kept(key, fanout, clones, listed, busy)
    ensures c in listed && c !in Wanted(key, fanout) ==> SurplusBusy(key, fanout, listed, busy)
  {
  }
}
