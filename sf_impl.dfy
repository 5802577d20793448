/** The star forest (PetscSF) record of include/petsc/private/sfimpl.h:
    the graph sizes, the plan of communication with the ranks that own
    roots of local leaves, the packing analysis of that plan, the cached
    root degrees and the graph-set flag, with the invariants the field
    comments state.  The communication itself is not modelled. */
module SFImpl {
  import opened PetscErrors

  /** roffset has one entry per rank plus one, rises from 0 to len, and
      cuts positions 0 .. len-1 into one slice per rank. */
  ghost predicate RankOffsets(roffset: seq<int>, nranks: nat, len: nat)
  {
    |roffset| == nranks + 1 && roffset[0] == 0 && roffset[nranks] == len &&
    (forall k :: 0 <= k <= nranks ==> 0 <= roffset[k] <= len) &&
    forall k, l :: 0 <= k <= l <= nranks ==> roffset[k] <= roffset[l]
  }

  /** s is the run start, start + 1, start + 2, ... */
  ghost predicate IsRun(s: seq<int>, start: int)
  {
    forall t :: 0 <= t < |s| ==> s[t] == start + t
  }

  /** Some index occurs twice in s. */
  ghost predicate HasDup(s: seq<int>)
  {
    exists t, u :: 0 <= t < u < |s| && s[t] == s[u]
  }

  /** A run repeats nothing. */
  lemma RunHasNoDup(s: seq<int>, start: int)
    requires IsRun(s, start)
    ensures !HasDup(s)
  {
    forall t, u | 0 <= t < u < |s|
      ensures s[t] != s[u]
    {
      assert s[t] == start + t && s[u] == start + u;
    }
  }

  /** What the analysis fields of one part say about its indices s. */
  ghost predicate PartFacts(s: seq<int>, contig: bool, start: int, dups: bool)
  {
    (contig ==> IsRun(s, start)) && (dups <==> HasDup(s))
  }

  /** A non-empty run starts at its first element. */
  lemma RunStart(s: seq<int>, start: int)
    requires |s| > 0 && IsRun(s, start)
    ensures start == s[0]
  {
    assert s[0] == start + 0;
  }

  /** Whether s is a run, and from where: its first element, or 0 when s is
      empty (an empty slice counts as contiguous). */
  method ScanRun(s: seq<int>) returns (contig: bool, start: int)
    ensures start == (if |s| > 0 then s[0] else 0)
    ensures contig <==> IsRun(s, start)
  {
    start := if |s| > 0 then s[0] else 0;
    contig := true;
    var t := 0;
    while t < |s|
      invariant 0 <= t <= |s|
      invariant contig <==> forall v :: 0 <= v < t ==> s[v] == start + v
    {
      if s[t] != start + t {
        contig := false;
      }
      t := t + 1;
    }
  }

  /** Whether some index occurs twice in s. */
  method ScanDups(s: seq<int>) returns (dups: bool)
    ensures dups <==> HasDup(s)
  {
    dups := false;
    var u := 0;
    while u < |s|
      invariant 0 <= u <= |s|
      invariant dups <==> exists t, v :: 0 <= t < v < u && s[t] == s[v]
    {
      var t := 0;
      while t < u
        invariant 0 <= t <= u
        invariant dups <==> (exists t', v :: 0 <= t' < v < u && s[t'] == s[v]) ||
                             exists t' :: 0 <= t' < t && s[t'] == s[u]
      {
        if s[t] == s[u] {
          dups := true;
        }
        t := t + 1;
      }
      u := u + 1;
    }
  }

  /** The result of the PetscSFFree macro: its error code, the pointer
      afterwards, and whether the backend's Free was called. */
  datatype Ptr = Null | Addr(a: nat)
  datatype FreeResult = FreeResult(code: int, ptr: Ptr, called: bool)

  /** PetscSFFree in a device build: a NULL pointer is left alone; otherwise
      Free runs, with outcome freeCode, and only on success is the pointer
      set to NULL.  The macro joins these with C's && and ||, so a failure
      yields 1, not Free's own code. */
  function SFFree(ptr: Ptr, freeCode: int): (r: FreeResult)
    ensures r.called <==> ptr.Addr?
    ensures r.code == 0 || r.code == 1
    ensures r.code == 0 <==> ptr.Null? || freeCode == 0
    ensures r.ptr.Null? <==> r.code == 0
    ensures r.code != 0 ==> r.ptr == ptr
  {
    if ptr.Null? then FreeResult(0, Null, false)
    else if freeCode != 0 then FreeResult(1, ptr, true)
    else FreeResult(0, Null, true)
  }

  /** After a successful free the pointer is NULL, so freeing it again calls
      nothing and succeeds. */
  lemma FreeTwice(ptr: Ptr, c1: int, c2: int)
    requires SFFree(ptr, c1).code == 0
    ensures SFFree(SFFree(ptr, c1).ptr, c2) == FreeResult(0, Null, false)
  {
  }

  /** Every failing Free gives the same result: the macro keeps no trace of
      which error Free reported. */
  lemma FreeFailureCollapses(ptr: Ptr, c1: int, c2: int)
    requires ptr.Addr? && c1 != 0 && c2 != 0
    ensures SFFree(ptr, c1) == SFFree(ptr, c2)
  {
  }

  /** The packing analysis of one part of rmine (fields leafcontig,
      leafstart and leafdups at one index). */
  datatype LeafAnalysis = LeafAnalysis(contig: bool, start: int, dups: bool)

  /** The plan of communication with the ranks that own roots of my leaves
      (fields ranks, ndranks, roffset, rmine and rremote; nranks is |ranks|)
      and its packing analysis for the self part (index 0) and the remote
      part (index 1). */
  datatype RankPlan = RankPlan(ranks: seq<int>, ndranks: int, roffset: seq<int>,
                               rmine: seq<int>, rremote: seq<int>,
                               self: LeafAnalysis, remote: LeafAnalysis)

  /** The offsets cut rmine and rremote into one slice per rank, and the
      distinguished group is some of the ranks. */
  ghost predicate Shaped(plan: RankPlan)
  {
    0 <= plan.ndranks <= |plan.ranks| &&
    RankOffsets(plan.roffset, |plan.ranks|, |plan.rmine|) && |plan.rremote| == |plan.rmine|
  }

  /** Where part q (0: the distinguished group of ranks, 1: the rest) of
      rmine and rremote lies. */
  function PartBounds(plan: RankPlan, q: int): (b: (int, int))
    requires Shaped(plan) && (q == 0 || q == 1)
    ensures 0 <= b.0 <= b.1 <= |plan.rmine|
    ensures q == 0 ==> b.0 == 0
    ensures q == 1 ==> b.1 == |plan.rmine|
  {
    var mid := plan.roffset[plan.ndranks];
    if q == 0 then (0, mid) else (mid, |plan.rmine|)
  }

  /** The local leaf indices of part q. */
  function Part(plan: RankPlan, q: int): (s: seq<int>)
    requires Shaped(plan) && (q == 0 || q == 1)
  {
    var b := PartBounds(plan, q);
    plan.rmine[b.0..b.1]
  }

  /** The analysis describes rmine as the field comments say: a contiguous
      part is the run from its start, and dups tells whether the part
      repeats an index. */
  ghost predicate PlanValid(plan: RankPlan)
  {
    Shaped(plan) &&
    PartFacts(Part(plan, 0), plan.self.contig, plan.self.start, plan.self.dups) &&
    PartFacts(Part(plan, 1), plan.remote.contig, plan.remote.start, plan.remote.dups)
  }

  /** The plan of a star forest with no ranks. */
  function EmptyPlan(): (plan: RankPlan)
    ensures PlanValid(plan) && plan.ranks == [] && plan.rmine == [] && plan.rremote == []
  {
    RankPlan([], 0, [0], [], [], LeafAnalysis(true, 0, false), LeafAnalysis(true, 0, false))
  }

  /** roffset partitions rmine: every position belongs to the slice of some
      rank ... */
  lemma {:induction false} OwnerExists(plan: RankPlan, t: int)
    requires Shaped(plan) && 0 <= t < |plan.rmine|
    ensures exists k :: 0 <= k < |plan.ranks| && plan.roffset[k] <= t < plan.roffset[k + 1]
  {
    var k := 0;
    while plan.roffset[k + 1] <= t
      invariant 0 <= k < |plan.ranks| && plan.roffset[k] <= t
      decreases |plan.ranks| - k
    {
      k := k + 1;
    }
  }

  /** ... and of no other. */
  lemma OwnerUnique(plan: RankPlan, t: int, k: int, l: int)
    requires Shaped(plan)
    requires 0 <= k < |plan.ranks| && plan.roffset[k] <= t < plan.roffset[k + 1]
    requires 0 <= l < |plan.ranks| && plan.roffset[l] <= t < plan.roffset[l + 1]
    ensures k == l
  {
  }

  /** The two parts together are all of rmine, self first. */
  lemma PartsCover(plan: RankPlan)
    requires Shaped(plan)
    ensures Part(plan, 0) + Part(plan, 1) == plan.rmine
  {
    var mid := plan.roffset[plan.ndranks];
    assert plan.rmine == plan.rmine[..mid] + plan.rmine[mid..];
  }

  /** A contiguous part has no duplicates, so it is safe to unpack in
      parallel. */
  lemma ContiguousPartIsRaceFree(plan: RankPlan)
    requires PlanValid(plan)
    ensures plan.self.contig ==> !plan.self.dups
    ensures plan.remote.contig ==> !plan.remote.dups
  {
    if plan.self.contig {
      RunHasNoDup(Part(plan, 0), plan.self.start);
    }
    if plan.remote.contig {
      RunHasNoDup(Part(plan, 1), plan.remote.start);
    }
  }

  /** Analyse indices s for packing: is it a run, from where, does it
      repeat an index. */
  method AnalysePart(s: seq<int>) returns (r: LeafAnalysis)
    ensures r.contig <==> IsRun(s, r.start)
    ensures r.start == (if |s| > 0 then s[0] else 0)
    ensures r.dups <==> HasDup(s)
  {
    var contig, start := ScanRun(s);
    var dups := ScanDups(s);
    r := LeafAnalysis(contig, start, dups);
  }

  /** The plan for the given ranks and slices, with both parts analysed. */
  method AnalysePlan(ranks: seq<int>, ndranks: int, roffset: seq<int>, rmine: seq<int>, rremote: seq<int>)
    returns (plan: RankPlan)
    requires 0 <= ndranks <= |ranks| && RankOffsets(roffset, |ranks|, |rmine|) && |rremote| == |rmine|
    ensures PlanValid(plan)
    ensures plan.ranks == ranks && plan.ndranks == ndranks && plan.roffset == roffset
    ensures plan.rmine == rmine && plan.rremote == rremote
    ensures plan.self.contig <==> IsRun(Part(plan, 0), plan.self.start)
    ensures plan.remote.contig <==> IsRun(Part(plan, 1), plan.remote.start)
    ensures plan.self.start == (if |Part(plan, 0)| > 0 then Part(plan, 0)[0] else 0)
    ensures plan.remote.start == (if |Part(plan, 1)| > 0 then Part(plan, 1)[0] else 0)
    ensures (plan.self.dups <==> HasDup(Part(plan, 0))) && (plan.remote.dups <==> HasDup(Part(plan, 1)))
  {
    var mid := roffset[ndranks];
    var self := AnalysePart(rmine[..mid]);
    var remote := AnalysePart(rmine[mid..]);
    plan := RankPlan(ranks, ndranks, roffset, rmine, rremote, self, remote);
    assert Part(plan, 0) == rmine[..mid];
    assert Part(plan, 1) == rmine[mid..];
  }

  /** A leaf's reference to its root (PetscSFNode): the owning rank and
      the root's index there. */
  datatype SFNode = SFNode(rank: int, index: int)

  /** One edge of the graph as the plan lists it: the owning rank, the
      leaf's location in the leaf data and the root's index on that rank. */
  datatype Link = Link(rank: int, leaf: int, root: int)

  /** The ranks referenced by remote. */
  ghost function RemoteRanks(remote: seq<SFNode>): set<int>
  {
    set i | 0 <= i < |remote| :: remote[i].rank
  }

  /** The edges of the graph, leaf by leaf. */
  ghost function LeafLinks(mine: seq<int>, remote: seq<SFNode>): seq<Link>
    requires |mine| == |remote|
  {
    seq(|remote|, i requires 0 <= i < |remote| => Link(remote[i].rank, mine[i], remote[i].index))
  }

  /** The edges listed by the slices of ranks k .. nranks-1: rank k's
      slice of rmine and rremote tagged with ranks[k], then the others. */
  ghost function SlotsFrom(ranks: seq<int>, roffset: seq<int>, rmine: seq<int>, rremote: seq<int>, k: nat)
    : (links: seq<Link>)
    requires RankOffsets(roffset, |ranks|, |rmine|) && |rremote| == |rmine| && k <= |ranks|
    ensures |links| == |rmine| - roffset[k]
    decreases |ranks| - k
  {
    if k == |ranks| then []
    else
      var lo, hi := roffset[k], roffset[k + 1];
      seq(hi - lo, j requires 0 <= j < hi - lo => Link(ranks[k], rmine[lo + j], rremote[lo + j]))
        + SlotsFrom(ranks, roffset, rmine, rremote, k + 1)
  }

  /** The plan lists the graph's edges grouped by rank: ranks holds each
      rank referenced by remote exactly once, and the slices hold every
      leaf's location and root index under its rank, each edge as often as
      the graph has it. */
  ghost predicate Grouped(ranks: seq<int>, roffset: seq<int>, rmine: seq<int>, rremote: seq<int>,
                          mine: seq<int>, remote: seq<SFNode>)
  {
    RankOffsets(roffset, |ranks|, |rmine|) && |rremote| == |rmine| && |mine| == |remote| &&
    (forall k, l :: 0 <= k < l < |ranks| ==> ranks[k] != ranks[l]) &&
    (set r | r in ranks) == RemoteRanks(remote) &&
    multiset(SlotsFrom(ranks, roffset, rmine, rremote, 0)) == multiset(LeafLinks(mine, remote))
  }

  /** An edge listed from rank k on lies in the slice of some rank k' >= k. */
  lemma {:induction false} SlotsFromMember(ranks: seq<int>, roffset: seq<int>, rmine: seq<int>, rremote: seq<int>,
                                           k: nat, x: Link)
    requires RankOffsets(roffset, |ranks|, |rmine|) && |rremote| == |rmine| && k <= |ranks|
    requires x in SlotsFrom(ranks, roffset, rmine, rremote, k)
    ensures exists k', t :: k <= k' < |ranks| && roffset[k'] <= t < roffset[k' + 1] &&
                            x == Link(ranks[k'], rmine[t], rremote[t])
    decreases |ranks| - k
  {
    var lo, hi := roffset[k], roffset[k + 1];
    var head := seq(hi - lo, j requires 0 <= j < hi - lo => Link(ranks[k], rmine[lo + j], rremote[lo + j]));
    var tail := SlotsFrom(ranks, roffset, rmine, rremote, k + 1);
    assert SlotsFrom(ranks, roffset, rmine, rremote, k) == head + tail;
    if x in head {
      var j :| 0 <= j < |head| && head[j] == x;
      assert roffset[k] <= lo + j < roffset[k + 1];
    } else {
      SlotsFromMember(ranks, roffset, rmine, rremote, k + 1, x);
    }
  }

  /** Every edge in the slice of rank k' >= k is listed from rank k on. */
  lemma {:induction false} SlotInSlotsFrom(ranks: seq<int>, roffset: seq<int>, rmine: seq<int>, rremote: seq<int>,
                                           k: nat, k': int, t: int)
    requires RankOffsets(roffset, |ranks|, |rmine|) && |rremote| == |rmine| && k <= |ranks|
    requires k <= k' < |ranks| && roffset[k'] <= t < roffset[k' + 1]
    ensures Link(ranks[k'], rmine[t], rremote[t]) in SlotsFrom(ranks, roffset, rmine, rremote, k)
    decreases k' - k
  {
    var lo, hi := roffset[k], roffset[k + 1];
    var head := seq(hi - lo, j requires 0 <= j < hi - lo => Link(ranks[k], rmine[lo + j], rremote[lo + j]));
    var tail := SlotsFrom(ranks, roffset, rmine, rremote, k + 1);
    assert SlotsFrom(ranks, roffset, rmine, rremote, k) == head + tail;
    if k' == k {
      assert head[t - lo] == Link(ranks[k'], rmine[t], rremote[t]);
    } else {
      SlotInSlotsFrom(ranks, roffset, rmine, rremote, k + 1, k', t);
    }
  }

  /** A plan of the graph has one entry per leaf in rmine and rremote. */
  lemma GroupedCoversLeaves(ranks: seq<int>, roffset: seq<int>, rmine: seq<int>, rremote: seq<int>,
                            mine: seq<int>, remote: seq<SFNode>)
    requires Grouped(ranks, roffset, rmine, rremote, mine, remote)
    ensures |rmine| == |rremote| == |remote|
  {
    assert |multiset(SlotsFrom(ranks, roffset, rmine, rremote, 0))| == |rmine|;
  }

  /** Each entry of rank k's slice is an edge of the graph: some leaf at
      location rmine[t] references root rremote[t] on rank ranks[k]. */
  lemma SlotIsEdge(ranks: seq<int>, roffset: seq<int>, rmine: seq<int>, rremote: seq<int>,
                   mine: seq<int>, remote: seq<SFNode>, k: int, t: int)
    requires Grouped(ranks, roffset, rmine, rremote, mine, remote)
    requires 0 <= k < |ranks| && roffset[k] <= t < roffset[k + 1]
    ensures exists i :: 0 <= i < |remote| && remote[i] == SFNode(ranks[k], rremote[t]) && mine[i] == rmine[t]
  {
    var x := Link(ranks[k], rmine[t], rremote[t]);
    SlotInSlotsFrom(ranks, roffset, rmine, rremote, 0, k, t);
    assert x in multiset(LeafLinks(mine, remote));
    var i :| 0 <= i < |remote| && LeafLinks(mine, remote)[i] == x;
  }

  /** Each leaf is listed in the slice of the rank it references. */
  lemma LeafIsListed(ranks: seq<int>, roffset: seq<int>, rmine: seq<int>, rremote: seq<int>,
                     mine: seq<int>, remote: seq<SFNode>, i: int)
    requires Grouped(ranks, roffset, rmine, rremote, mine, remote)
    requires 0 <= i < |remote|
    ensures exists k, t :: 0 <= k < |ranks| && roffset[k] <= t < roffset[k + 1] &&
                           ranks[k] == remote[i].rank && rmine[t] == mine[i] && rremote[t] == remote[i].index
  {
    var x := Link(remote[i].rank, mine[i], remote[i].index);
    assert LeafLinks(mine, remote)[i] == x;
    assert x in multiset(SlotsFrom(ranks, roffset, rmine, rremote, 0));
    SlotsFromMember(ranks, roffset, rmine, rremote, 0, x);
  }

  /** Every listed rank has a non-empty slice: it is referenced by some
      leaf, which sits in the slice of that rank and of no other. */
  lemma ListedRankHasLeaves(ranks: seq<int>, roffset: seq<int>, rmine: seq<int>, rremote: seq<int>,
                            mine: seq<int>, remote: seq<SFNode>, k: int)
    requires Grouped(ranks, roffset, rmine, rremote, mine, remote)
    requires 0 <= k < |ranks|
    ensures roffset[k] < roffset[k + 1]
  {
    assert ranks[k] in RemoteRanks(remote);
    var i :| 0 <= i < |remote| && remote[i].rank == ranks[k];
    LeafIsListed(ranks, roffset, rmine, rremote, mine, remote, i);
    var k', t :| 0 <= k' < |ranks| && roffset[k'] <= t < roffset[k' + 1] && ranks[k'] == remote[i].rank;
    assert k' == k;
  }

  /** The leaf range: the least and greatest leaf location, or the empty
      range 0 .. -1 when there are no leaves. */
  ghost predicate LeafRange(mine: seq<int>, minleaf: int, maxleaf: int)
  {
    if |mine| == 0 then minleaf == 0 && maxleaf == -1
    else minleaf in mine && maxleaf in mine &&
         forall j :: 0 <= j < |mine| ==> minleaf <= mine[j] <= maxleaf
  }

  /** minleaf and maxleaf of the leaf locations. */
  method ScanLeafRange(mine: seq<int>) returns (minleaf: int, maxleaf: int)
    ensures LeafRange(mine, minleaf, maxleaf)
    ensures |mine| > 0 ==> minleaf <= maxleaf
  {
    if |mine| == 0 {
      return 0, -1;
    }
    minleaf, maxleaf := mine[0], mine[0];
    var j := 1;
    while j < |mine|
      invariant 1 <= j <= |mine|
      invariant minleaf in mine[..j] && maxleaf in mine[..j]
      invariant forall v :: 0 <= v < j ==> minleaf <= mine[v] <= maxleaf
    {
      if mine[j] < minleaf {
        minleaf := mine[j];
      }
      if mine[j] > maxleaf {
        maxleaf := mine[j];
      }
      j := j + 1;
    }
    assert mine[..j] == mine;
  }

  class PetscSF {
    var nroots: int        // root vertices on this process
    var nleaves: int       // leaf vertices on this process
    var mine: seq<int>     // location of each leaf in the leaf data
    var minleaf: int       // least leaf location
    var maxleaf: int       // greatest leaf location
    var remote: seq<SFNode>  // the root each leaf references
    var graphset: bool     // the graph has been set
    var plan: RankPlan     // ranks, offsets, rmine, rremote and their analysis
    var setupcalled: bool  // the plan has been built from the graph
    var degreeknown: bool  // degree is up to date
    var degree: seq<int>   // degree of each of my roots

    ghost predicate Valid()
      reads this
    {
      nroots >= 0 && nleaves >= 0 && |mine| == nleaves && |remote| == nleaves &&
      LeafRange(mine, minleaf, maxleaf) && PlanValid(plan) &&
      (setupcalled ==> graphset && Grouped(plan.ranks, plan.roffset, plan.rmine, plan.rremote, mine, remote)) &&
      (degreeknown ==> |degree| == nroots)
    }

    /** The communication routines need the graph: they fail with a
        wrong-state error before it is set. */
    function GraphSetCheck(): (e: ErrorCode)
      reads this
      ensures e == Success <==> graphset
      ensures e != Success ==> e == ErrArgWrongState
    {
      if graphset then Success else ErrArgWrongState
    }

    /** A new star forest: no graph, no ranks, nothing known. */
    constructor ()
      ensures Valid() && !graphset && !setupcalled && !degreeknown
      ensures nroots == 0 && nleaves == 0 && mine == [] && remote == [] && plan == EmptyPlan()
    {
      nroots, nleaves, graphset := 0, 0, false;
      mine, remote, minleaf, maxleaf := [], [], 0, -1;
      plan, setupcalled := EmptyPlan(), false;
      degreeknown, degree := false, [];
    }

    /** Forget the graph and everything derived from it. */
    method Reset()
      modifies this
      ensures Valid() && !graphset && !setupcalled && !degreeknown
      ensures nroots == 0 && nleaves == 0 && mine == [] && remote == [] && plan == EmptyPlan()
    {
      nroots, nleaves, graphset := 0, 0, false;
      mine, remote, minleaf, maxleaf := [], [], 0, -1;
      plan, setupcalled := EmptyPlan(), false;
      degreeknown, degree := false, [];
    }

    /** Set a new graph of nroots roots and nleaves leaves, leaf j stored
        at mine[j] and referencing remote[j]: the old plan and degrees
        describe another graph and are dropped. */
    method SetGraph(nroots: int, nleaves: int, mine: seq<int>, remote: seq<SFNode>)
      requires nroots >= 0 && nleaves >= 0 && |mine| == nleaves && |remote| == nleaves
      modifies this
      ensures Valid() && graphset && !setupcalled && !degreeknown
      ensures this.nroots == nroots && this.nleaves == nleaves && plan == EmptyPlan()
      ensures this.mine == mine && this.remote == remote
      ensures LeafRange(mine, minleaf, maxleaf)
    {
      Reset();
      this.nroots, this.nleaves := nroots, nleaves;
      this.mine, this.remote := mine, remote;
      minleaf, maxleaf := ScanLeafRange(mine);
      graphset := true;
    }

    /** Install the rank plan built from the graph, analysed for packing.
        Without a graph there is nothing to plan; with one, the plan must
        list the graph's edges grouped by rank. */
    method SetRankPlan(ranks: seq<int>, ndranks: int, roffset: seq<int>, rmine: seq<int>, rremote: seq<int>)
      returns (err: ErrorCode)
      requires Valid()
      requires 0 <= ndranks <= |ranks| && RankOffsets(roffset, |ranks|, |rmine|) && |rremote| == |rmine|
      requires graphset ==> Grouped(ranks, roffset, rmine, rremote, mine, remote)
      modifies this
      ensures Valid()
      ensures err == GraphSetCheck()
      ensures err != Success ==> plan == old(plan) && setupcalled == old(setupcalled)
      ensures err == Success ==>
        setupcalled && plan.ranks == ranks && plan.ndranks == ndranks && plan.roffset == roffset &&
        plan.rmine == rmine && plan.rremote == rremote && |rmine| == nleaves
      ensures err == Success ==>
        (plan.self.contig <==> IsRun(Part(plan, 0), plan.self.start)) &&
        (plan.remote.contig <==> IsRun(Part(plan, 1), plan.remote.start))
      ensures err == Success ==>
        plan.self.start == (if |Part(plan, 0)| > 0 then Part(plan, 0)[0] else 0) &&
        plan.remote.start == (if |Part(plan, 1)| > 0 then Part(plan, 1)[0] else 0)
      ensures err == Success ==>
        (plan.self.dups <==> HasDup(Part(plan, 0))) && (plan.remote.dups <==> HasDup(Part(plan, 1)))
      ensures nroots == old(nroots) && nleaves == old(nleaves) && graphset == old(graphset)
      ensures mine == old(mine) && remote == old(remote) && minleaf == old(minleaf) && maxleaf == old(maxleaf)
      ensures degreeknown == old(degreeknown) && degree == old(degree)
    {
      err := GraphSetCheck();
      if err == Success {
        GroupedCoversLeaves(ranks, roffset, rmine, rremote, mine, remote);
        plan := AnalysePlan(ranks, ndranks, roffset, rmine, rremote);
        setupcalled := true;
      }
    }

    /** The root degrees.  While they are known the cached ones are
        returned and `computed`, the result of gathering them from the
        leaves, is not used; otherwise it is stored and becomes known. */
    method GetDegree(computed: seq<int>) returns (err: ErrorCode, d: seq<int>)
      requires Valid() && |computed| == nroots
      modifies this
      ensures Valid()
      ensures err == GraphSetCheck()
      ensures err != Success ==> degreeknown == old(degreeknown) && degree == old(degree) && d == []
      ensures err == Success ==> degreeknown && d == degree && |d| == nroots
      ensures err == Success ==> d == (if old(degreeknown) then old(degree) else computed)
      ensures nroots == old(nroots) && nleaves == old(nleaves) && graphset == old(graphset)
      ensures mine == old(mine) && remote == old(remote) && minleaf == old(minleaf) && maxleaf == old(maxleaf)
      ensures plan == old(plan) && setupcalled == old(setupcalled)
    {
      err := GraphSetCheck();
      if err != Success {
        d := [];
        return;
      }
      if !degreeknown {
        degree := computed;
        degreeknown := true;
      }
      d := degree;
    }
  }
}
