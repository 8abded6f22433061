/** The keys by which a staged sweep decides that a column or ladder entry is current. */
module GenerationKeys {
  import opened Prelude
  import opened Sorting
  import Encoding

  /** A recorded `generation` block; absent counts and ids read as zero and none. */
  datatype Block = NotABlock | Block(leaves: int, newest: Option<string>, runs: seq<string>)

  /** A child's commit stamp; `runId == ""` stands for a fleet-written stamp, which carries none. */
  datatype Stamp = Stamp(writtenAt: Option<string>, runId: string)

  datatype Key = NoGeneration | Generation(leaves: int, newest: Option<string>, runs: seq<string>)

  function Distinct(s: seq<string>): seq<string> {
    if s == [] then []
    else
      var init, last := Distinct(s[..|s| - 1]), s[|s| - 1];
      if last in init then init else init + [last]
  }

  predicate NoRepeats(s: seq<string>) {
    forall i, j :: 0 <= i < j < |s| ==> s[i] != s[j]
  }

  lemma {:induction false} DistinctExact(s: seq<string>)
    ensures NoRepeats(Distinct(s)) && forall x :: x in Distinct(s) <==> x in s
  {
    if s != [] {
      var n := |s| - 1;
      DistinctExact(s[..n]);
      assert s == s[..n] + [s[n]];
    }
  }

  lemma {:induction false} OnceEach(s: seq<string>, x: string)
    requires NoRepeats(s)
    ensures multiset(s)[x] == if x in s then 1 else 0
  {
    if s != [] {
      var n := |s| - 1;
      OnceEach(s[..n], x);
      assert s == s[..n] + [s[n]];
    }
  }

  /** `tuple(sorted(set(ids)))`. */
  function Listing(ids: seq<string>): seq<string> {
    Sorted(Distinct(ids), Encoding.Le)
  }

  lemma SameMembersSameBag(a: seq<string>, b: seq<string>)
    requires NoRepeats(a) && NoRepeats(b) && forall x :: x in a <==> x in b
    ensures multiset(a) == multiset(b)
  {
    forall x ensures multiset(a)[x] == multiset(b)[x] {
      OnceEach(a, x);
      OnceEach(b, x);
    }
  }

  lemma ListingMembers(ids: seq<string>, x: string)
    ensures x in Listing(ids) <==> x in ids
  {
    Encoding.LeOrders();
    DistinctExact(ids);
    SortedExact(Distinct(ids), Encoding.Le);
    assert x in Distinct(ids) <==> x in multiset(Distinct(ids));
    assert x in Listing(ids) <==> x in multiset(Listing(ids));
  }

  /** Listings are equal exactly when the sets of ids are, however often and in whatever order the ids were recorded. */
  lemma ListingExact(a: seq<string>, b: seq<string>)
    ensures Listing(a) == Listing(b) <==> AsSet(a) == AsSet(b)
  {
    if AsSet(a) == AsSet(b) {
      Encoding.LeOrders();
      DistinctExact(a);
      DistinctExact(b);
      assert forall x :: x in a <==> x in AsSet(b);
      SameMembersSameBag(Distinct(a), Distinct(b));
      SortedExact(Distinct(a), Encoding.Le);
      SortedExact(Distinct(b), Encoding.Le);
      Encoding.AscendingUnique(Listing(a), Listing(b));
    }
    if Listing(a) == Listing(b) {
      hide Listing;
      forall x ensures x in a <==> x in b {
        ListingMembers(a, x);
        ListingMembers(b, x);
      }
    }
  }

  /** `generation_key`. */
  function GenerationKey(block: Block): Key {
    if block.NotABlock? then NoGeneration else Generation(block.leaves, block.newest, Listing(block.runs))
  }

  function Own(block: Block, stamp: Stamp): Block {
    if block.NotABlock? then Block(1, stamp.writtenAt, []) else block
  }

  function RunList(block: Block, stamp: Stamp): seq<string> {
    (if block.NotABlock? then [] else block.runs) + if stamp.runId == "" then [] else [stamp.runId]
  }

  /** `stamped_generation_key`: a leaf column, which records no block, stands for one leaf of its stamp's age. */
  function StampedKey(block: Block, stamp: Stamp): Key {
    var own := Own(block, stamp);
    GenerationKey(Block(own.leaves, own.newest, Listing(RunList(block, stamp))))
  }

  function RunsOf(block: Block, stamp: Stamp): set<string> {
    (if block.NotABlock? then {} else AsSet(block.runs)) + if stamp.runId == "" then {} else {stamp.runId}
  }

  lemma ListedRuns(block: Block, stamp: Stamp)
    ensures AsSet(Listing(RunList(block, stamp))) == RunsOf(block, stamp)
  {
    hide Listing;
    var runs := RunList(block, stamp);
    forall x ensures x in Listing(runs) <==> x in RunsOf(block, stamp) {
      ListingMembers(runs, x);
    }
  }

  /** Two readings of a child agree exactly on the count, the age and the set of runs that had a hand in it, its own
      stamp included. So a rewrite by a run not seen before moves the key even within the second and at an unchanged
      count; a rewrite by a fleet worker, which stamps no run, does not by itself. */
  lemma StampedKeyExact(a: Block, s: Stamp, b: Block, t: Stamp)
    ensures StampedKey(a, s) == StampedKey(b, t) <==>
              && Own(a, s).leaves == Own(b, t).leaves && Own(a, s).newest == Own(b, t).newest
              && RunsOf(a, s) == RunsOf(b, t)
    ensures t.runId != "" && t.runId !in RunsOf(a, s) ==> StampedKey(a, s) != StampedKey(b, t)
  {
    hide Listing, RunList, AsSet;
    ListedRuns(a, s);
    ListedRuns(b, t);
    ListingExact(Listing(RunList(a, s)), Listing(RunList(b, t)));
    assert t.runId != "" ==> t.runId in RunsOf(b, t);
  }
}
