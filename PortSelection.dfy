/** What the port selectors of the resource helper compute, stated on values.

    `Selection(offer, limit)` follows the Java loops step by step: the RANGES
    resources of the offer in order, each of their ranges in order, a range
    admitted only while fewer than `limit` ports are held, and an admitted range
    contributes `(int) begin` and, if still short and `begin != end`,
    `(int) begin + 1`. `Candidates(offer)` is the independent reference: the
    whole stream of ports the offer could contribute. The main lemma says the
    selection is the first `limit` ports of that stream. */
module PortSelection {
  import opened JavaInt
  import opened Protos

  // ---------------------------------------------------------------------------
  // The selection loop, one step at a time

  /** One visit of a range with `ports` held so far. */
  function AdmitRange(ports: seq<Int32>, rg: Range, limit: nat): seq<Int32>
  {
    if |ports| < limit then
      var first := ports + [Narrow(rg.begin)];
      if |first| < limit && rg.begin != rg.end then first + [Successor(Narrow(rg.begin))] else first
    else
      ports
  }

  /** Visiting the ranges `rs` in order. */
  function AdmitRanges(ports: seq<Int32>, rs: seq<Range>, limit: nat): seq<Int32>
  {
    if rs == [] then ports else AdmitRange(AdmitRanges(ports, rs[..|rs| - 1], limit), rs[|rs| - 1], limit)
  }

  /** Visiting one offered resource: only the type is tested, never the name. */
  function AdmitResource(ports: seq<Int32>, r: Resource, limit: nat): seq<Int32>
  {
    match r.value
    case Ranges(rs) => AdmitRanges(ports, rs, limit)
    case _ => ports
  }

  /** The ports selected from `offer`, starting from the empty list. */
  function Selection(offer: seq<Resource>, limit: nat): seq<Int32>
  {
    if offer == [] then [] else AdmitResource(Selection(offer[..|offer| - 1], limit), offer[|offer| - 1], limit)
  }

  // ---------------------------------------------------------------------------
  // The reference: every port the offer can contribute, in order

  function RangeCandidates(rg: Range): (c: seq<Int32>)
    ensures |c| == if rg.begin == rg.end then 1 else 2
  {
    if rg.begin != rg.end then [Narrow(rg.begin), Successor(Narrow(rg.begin))] else [Narrow(rg.begin)]
  }

  function RangesCandidates(rs: seq<Range>): seq<Int32>
  {
    if rs == [] then [] else RangesCandidates(rs[..|rs| - 1]) + RangeCandidates(rs[|rs| - 1])
  }

  function ResourceCandidates(r: Resource): seq<Int32>
  {
    if r.value.Ranges? then RangesCandidates(r.value.ranges) else []
  }

  function Candidates(offer: seq<Resource>): seq<Int32>
  {
    if offer == [] then [] else Candidates(offer[..|offer| - 1]) + ResourceCandidates(offer[|offer| - 1])
  }

  /** The first `n` elements of `s`, or all of `s` when it is shorter. */
  function Take<T>(s: seq<T>, n: nat): (r: seq<T>)
    ensures |r| == if |s| <= n then |s| else n
    ensures r <= s
  {
    if |s| <= n then s else s[..n]
  }

  /** A range contributes 1 port when `begin == end` and 2 otherwise. */
  function RangesWeight(rs: seq<Range>): nat
  {
    if rs == [] then 0 else RangesWeight(rs[..|rs| - 1]) + (if rs[|rs| - 1].begin == rs[|rs| - 1].end then 1 else 2)
  }

  function OfferWeight(offer: seq<Resource>): nat
  {
    if offer == [] then 0
    else
      OfferWeight(offer[..|offer| - 1]) +
      match offer[|offer| - 1].value
      case Ranges(rs) => RangesWeight(rs)
      case _ => 0
  }

  /** `p` is what a range yields: its begin, or begin + 1 when the range is wider than one port. */
  predicate RangeYields(rg: Range, p: int)
  {
    p == Narrow(rg.begin) || (rg.begin != rg.end && p == Successor(Narrow(rg.begin)))
  }

  ghost predicate RangesYield(rs: seq<Range>, p: int)
  {
    exists j :: 0 <= j < |rs| && RangeYields(rs[j], p)
  }

  /** `p` is yielded by some range of some RANGES-typed resource of the offer. */
  ghost predicate Offered(offer: seq<Resource>, p: int)
  {
    exists i :: 0 <= i < |offer| && offer[i].value.Ranges? && RangesYield(offer[i].value.ranges, p)
  }

  /** Every range of every RANGES resource is a well-formed interval of TCP ports. */
  ghost predicate ValidPortRanges(offer: seq<Resource>)
  {
    forall i, j :: 0 <= i < |offer| && offer[i].value.Ranges? && 0 <= j < |offer[i].value.ranges| ==>
      0 <= offer[i].value.ranges[j].begin <= offer[i].value.ranges[j].end <= 65535
  }

  /** The first range of the first RANGES resource that has one: resources before it
      are not of type RANGES or have no range. */
  function FirstRange(offer: seq<Resource>): (f: Option<Range>)
    ensures f.Some? ==> exists i :: (0 <= i < |offer| && offer[i].value.Ranges? && offer[i].value.ranges != [] && f.value == offer[i].value.ranges[0] &&
                                     forall k :: 0 <= k < i ==> !offer[k].value.Ranges? || offer[k].value.ranges == [])
    ensures f.None? <==> forall k :: 0 <= k < |offer| ==> !offer[k].value.Ranges? || offer[k].value.ranges == []
  {
    if offer == [] then None
    else
      var init, last := offer[..|offer| - 1], offer[|offer| - 1];
      match FirstRange(init)
      case Some(rg) => Some(rg)
      case None => if last.value.Ranges? && last.value.ranges != [] then Some(last.value.ranges[0]) else None
  }

  // ---------------------------------------------------------------------------
  // The selection is the first `limit` candidates

  lemma AdmitRangeTakes(c: seq<Int32>, rg: Range, limit: nat)
    ensures AdmitRange(Take(c, limit), rg, limit) == Take(c + RangeCandidates(rg), limit)
  {
    if |c| < limit {
      assert Take(c, limit) == c;
      if |c| + 1 == limit || rg.begin == rg.end {
        assert Take(c + RangeCandidates(rg), limit) == c + [Narrow(rg.begin)];
      }
    } else {
      assert (c + RangeCandidates(rg))[..limit] == c[..limit];
    }
  }

  lemma {:induction false} AdmitRangesTakes(c: seq<Int32>, rs: seq<Range>, limit: nat)
    ensures AdmitRanges(Take(c, limit), rs, limit) == Take(c + RangesCandidates(rs), limit)
  {
    if rs == [] {
      assert c + [] == c;
    } else {
      var init, last := rs[..|rs| - 1], rs[|rs| - 1];
      AdmitRangesTakes(c, init, limit);
      AdmitRangeTakes(c + RangesCandidates(init), last, limit);
      assert c + RangesCandidates(init) + RangeCandidates(last) == c + RangesCandidates(rs);
    }
  }

  lemma AdmitResourceTakes(c: seq<Int32>, r: Resource, limit: nat)
    ensures AdmitResource(Take(c, limit), r, limit) == Take(c + ResourceCandidates(r), limit)
  {
    match r.value
    case Ranges(rs) => AdmitRangesTakes(c, rs, limit);
    case _ => assert c + [] == c;
  }

  /** First fit: the loop keeps exactly the first `limit` ports of the candidate stream. */
  lemma {:induction false} SelectionIsFirstCandidates(offer: seq<Resource>, limit: nat)
    ensures Selection(offer, limit) == Take(Candidates(offer), limit)
  {
    if offer != [] {
      var init := offer[..|offer| - 1];
      SelectionIsFirstCandidates(init, limit);
      AdmitResourceTakes(Candidates(init), offer[|offer| - 1], limit);
    }
  }

  // ---------------------------------------------------------------------------
  // Structure of the candidate stream

  lemma {:induction false} RangesCandidatesCount(rs: seq<Range>)
    ensures |RangesCandidates(rs)| == RangesWeight(rs)
  {
    if rs != [] {
      RangesCandidatesCount(rs[..|rs| - 1]);
    }
  }

  lemma {:induction false} CandidatesCount(offer: seq<Resource>)
    ensures |Candidates(offer)| == OfferWeight(offer)
  {
    if offer != [] {
      CandidatesCount(offer[..|offer| - 1]);
      match offer[|offer| - 1].value
      case Ranges(rs) => RangesCandidatesCount(rs);
      case _ =>
    }
  }

  lemma RangesYieldSplit(rs: seq<Range>, p: int)
    requires rs != []
    ensures RangesYield(rs, p) <==> RangesYield(rs[..|rs| - 1], p) || RangeYields(rs[|rs| - 1], p)
  {
    var init := rs[..|rs| - 1];
    if RangesYield(init, p) {
      var j :| 0 <= j < |init| && RangeYields(init[j], p);
      assert rs[j] == init[j];
    }
  }

  lemma {:induction false} RangesCandidatesYield(rs: seq<Range>, p: int)
    ensures p in RangesCandidates(rs) <==> RangesYield(rs, p)
  {
    if rs != [] {
      RangesCandidatesYield(rs[..|rs| - 1], p);
      RangesYieldSplit(rs, p);
    }
  }

  lemma OfferedSplit(offer: seq<Resource>, p: int)
    requires offer != []
    ensures Offered(offer, p) <==>
      Offered(offer[..|offer| - 1], p) || (offer[|offer| - 1].value.Ranges? && RangesYield(offer[|offer| - 1].value.ranges, p))
  {
    var init := offer[..|offer| - 1];
    if Offered(init, p) {
      var i :| 0 <= i < |init| && init[i].value.Ranges? && RangesYield(init[i].value.ranges, p);
      assert offer[i] == init[i];
    }
    if Offered(offer, p) {
      var i :| 0 <= i < |offer| && offer[i].value.Ranges? && RangesYield(offer[i].value.ranges, p);
      if i < |init| {
        assert init[i] == offer[i];
      }
    }
  }

  /** A port is in the candidate stream exactly when some RANGES resource of the offer yields it. */
  lemma {:induction false} CandidatesAreOffered(offer: seq<Resource>, p: int)
    ensures p in Candidates(offer) <==> Offered(offer, p)
  {
    if offer != [] {
      var init, last := offer[..|offer| - 1], offer[|offer| - 1];
      CandidatesAreOffered(init, p);
      OfferedSplit(offer, p);
      match last.value
      case Ranges(rs) => RangesCandidatesYield(rs, p);
      case _ =>
    }
  }

  // ---------------------------------------------------------------------------
  // What the selectors promise

  /** At most `limit` ports, and exactly `min(limit, weight)` where the weight counts
      1 per single-port range and 2 per wider range; no port is dropped as a duplicate. */
  lemma SelectionLength(offer: seq<Resource>, limit: nat)
    ensures |Selection(offer, limit)| == if OfferWeight(offer) <= limit then OfferWeight(offer) else limit
  {
    SelectionIsFirstCandidates(offer, limit);
    CandidatesCount(offer);
  }

  /** Every selected port is the begin of a range of a RANGES-typed resource of the offer,
      or that begin + 1 for a range with `begin != end`. */
  lemma SelectedPortsComeFromRanges(offer: seq<Resource>, limit: nat, p: int)
    requires p in Selection(offer, limit)
    ensures Offered(offer, p)
  {
    SelectionIsFirstCandidates(offer, limit);
    CandidatesAreOffered(offer, p);
  }

  /** With well-formed port ranges no wrap-around occurs: every selected port lies
      inside one of the offered inclusive ranges. */
  lemma SelectedPortsAreCovered(offer: seq<Resource>, limit: nat, p: int)
    requires ValidPortRanges(offer)
    requires p in Selection(offer, limit)
    ensures exists i :: 0 <= i < |offer| && Covers(offer[i], p)
  {
    SelectedPortsComeFromRanges(offer, limit, p);
    var i :| 0 <= i < |offer| && offer[i].value.Ranges? && RangesYield(offer[i].value.ranges, p);
    var j :| 0 <= j < |offer[i].value.ranges| && RangeYields(offer[i].value.ranges[j], p);
    var rg := offer[i].value.ranges[j];
    assert 0 <= rg.begin <= rg.end <= 65535;
    assert rg.begin <= p <= rg.end;
  }

  /** A larger limit only extends the selection: the one-port result is a prefix of the two-port one. */
  lemma SelectionGrowsWithLimit(offer: seq<Resource>, small: nat, large: nat)
    requires small <= large
    ensures Selection(offer, small) == Take(Selection(offer, large), small)
  {
    SelectionIsFirstCandidates(offer, small);
    SelectionIsFirstCandidates(offer, large);
  }

  lemma DropLastOfAppend<T>(a: seq<T>, b: seq<T>)
    requires b != []
    ensures (a + b)[..|a + b| - 1] == a + b[..|b| - 1]
    ensures (a + b)[|a + b| - 1] == b[|b| - 1]
  {
  }

  lemma {:induction false} AdmitRangesWhenFull(ports: seq<Int32>, rs: seq<Range>, limit: nat)
    requires |ports| >= limit
    ensures AdmitRanges(ports, rs, limit) == ports
  {
    if rs != [] {
      AdmitRangesWhenFull(ports, rs[..|rs| - 1], limit);
    }
  }

  /** Once the selection is full, the resources that follow are inspected but contribute nothing. */
  lemma {:induction false} FullSelectionIgnoresLaterResources(offer: seq<Resource>, later: seq<Resource>, limit: nat)
    requires |Selection(offer, limit)| == limit
    ensures Selection(offer + later, limit) == Selection(offer, limit)
  {
    if later == [] {
      assert offer + later == offer;
    } else {
      var init, last := later[..|later| - 1], later[|later| - 1];
      DropLastOfAppend(offer, later);
      FullSelectionIgnoresLaterResources(offer, init, limit);
      if last.value.Ranges? {
        AdmitRangesWhenFull(Selection(offer, limit), last.value.ranges, limit);
      }
    }
  }

  /** A resource that is not of type RANGES can be removed from the offer without changing the result. */
  lemma {:induction false} NonRangesResourceIgnored(before: seq<Resource>, r: Resource, after: seq<Resource>, limit: nat)
    requires !r.value.Ranges?
    ensures Selection(before + [r] + after, limit) == Selection(before + after, limit)
  {
    if after == [] {
      assert before + [r] + after == before + [r] && before + after == before;
      DropLastOfAppend(before, [r]);
    } else {
      var init, last := after[..|after| - 1], after[|after| - 1];
      DropLastOfAppend(before + [r], after);
      DropLastOfAppend(before, after);
      NonRangesResourceIgnored(before, r, init, limit);
    }
  }

  lemma {:induction false} NoRangesNoCandidates(offer: seq<Resource>)
    requires forall i :: 0 <= i < |offer| ==> !offer[i].value.Ranges?
    ensures Candidates(offer) == []
  {
    if offer != [] {
      NoRangesNoCandidates(offer[..|offer| - 1]);
    }
  }

  /** An offer without RANGES resources yields no port. */
  lemma NoRangesNoPorts(offer: seq<Resource>, limit: nat)
    requires forall i :: 0 <= i < |offer| ==> !offer[i].value.Ranges?
    ensures Selection(offer, limit) == []
  {
    SelectionIsFirstCandidates(offer, limit);
    NoRangesNoCandidates(offer);
  }

  /** The selection depends on the values of the resources only: names are never read. */
  lemma {:induction false} NamesAreIgnored(offer: seq<Resource>, renamed: seq<Resource>, limit: nat)
    requires |renamed| == |offer|
    requires forall i :: 0 <= i < |offer| ==> renamed[i].value == offer[i].value
    ensures Selection(renamed, limit) == Selection(offer, limit)
  {
    if offer != [] {
      NamesAreIgnored(offer[..|offer| - 1], renamed[..|renamed| - 1], limit);
    }
  }

  /** With limit 1 a range contributes its begin or nothing: the `begin + 1` branch is dead. */
  lemma LimitOneNeverTakesSuccessor(ports: seq<Int32>, rg: Range)
    ensures AdmitRange(ports, rg, 1) == if ports == [] then [Narrow(rg.begin)] else ports
  {
  }

  lemma {:induction false} FirstBeginOfRanges(rs: seq<Range>)
    ensures AdmitRanges([], rs, 1) == if rs == [] then [] else [Narrow(rs[0].begin)]
  {
    if rs != [] {
      var init := rs[..|rs| - 1];
      FirstBeginOfRanges(init);
      if init != [] {
        assert init[0] == rs[0];
      }
    }
  }

  /** The one-port selection is the begin of the first range of the first RANGES resource, or empty. */
  lemma {:induction false} SelectOneIsFirstBegin(offer: seq<Resource>)
    ensures Selection(offer, 1) == match FirstRange(offer) case None => [] case Some(rg) => [Narrow(rg.begin)]
  {
    if offer != [] {
      var init, last := offer[..|offer| - 1], offer[|offer| - 1];
      SelectOneIsFirstBegin(init);
      if last.value.Ranges? {
        if FirstRange(init).Some? {
          AdmitRangesWhenFull(Selection(init, 1), last.value.ranges, 1);
        } else {
          FirstBeginOfRanges(last.value.ranges);
        }
      }
    }
  }

  // ---------------------------------------------------------------------------
  // Exact results for small offers

  /** A single one-port range yields that one port. */
  lemma OnePortRange(name: string, a: Int64)
    requires 0 <= a <= 65535
    ensures Selection([Resource(name, Ranges([Range(a, a)]))], 2) == [a]
  {
    var offer := [Resource(name, Ranges([Range(a, a)]))];
    assert offer[..0] == [];
    assert Selection(offer, 2) == AdmitRanges([], [Range(a, a)], 2);
    assert [Range(a, a)][..0] == [];
  }

  /** A single wider range yields its begin and the port after it. */
  lemma WideRange(name: string, a: Int64, b: Int64)
    requires 0 <= a <= 65535 && a != b
    ensures Selection([Resource(name, Ranges([Range(a, b)]))], 2) == [a, a + 1]
  {
    var offer := [Resource(name, Ranges([Range(a, b)]))];
    assert offer[..0] == [];
    assert Selection(offer, 2) == AdmitRanges([], [Range(a, b)], 2);
    assert [Range(a, b)][..0] == [];
  }

  /** A one-port range followed by another resource: the second port is the next resource's begin. */
  lemma AcrossResources(n1: string, n2: string, a: Int64, c: Int64, d: Int64)
    requires 0 <= a <= 65535 && 0 <= c <= 65535
    ensures Selection([Resource(n1, Ranges([Range(a, a)])), Resource(n2, Ranges([Range(c, d)]))], 2) == [a, c]
  {
    var offer := [Resource(n1, Ranges([Range(a, a)])), Resource(n2, Ranges([Range(c, d)]))];
    OnePortRange(n1, a);
    assert offer[..1] == [offer[0]];
    assert Selection(offer, 2) == AdmitRanges([a], [Range(c, d)], 2);
    assert [Range(c, d)][..0] == [];
  }

  /** The same port offered twice is selected twice: there is no deduplication. */
  lemma DuplicatesKept(n1: string, n2: string, a: Int64)
    requires 0 <= a <= 65535
    ensures Selection([Resource(n1, Ranges([Range(a, a)])), Resource(n2, Ranges([Range(a, a)]))], 2) == [a, a]
  {
    var offer := [Resource(n1, Ranges([Range(a, a)])), Resource(n2, Ranges([Range(a, a)]))];
    OnePortRange(n1, a);
    assert offer[..1] == [offer[0]];
    assert Selection(offer, 2) == AdmitRanges([a], [Range(a, a)], 2);
    assert [Range(a, a)][..0] == [];
  }

  /** A range whose begin narrows to the largest `int` wraps: `(int) begin + 1` is the smallest `int`. */
  lemma SuccessorWrapsAtLargestInt(name: string, b: Int64, e: Int64)
    requires Narrow(b) == MAX_INT && b != e
    ensures Selection([Resource(name, Ranges([Range(b, e)]))], 2) == [MAX_INT, MIN_INT]
  {
    var offer := [Resource(name, Ranges([Range(b, e)]))];
    assert offer[..0] == [];
    assert Selection(offer, 2) == AdmitRanges([], [Range(b, e)], 2);
    assert [Range(b, e)][..0] == [];
  }

  /** For instance the `long` begin 2^32 + 2^31 - 1 narrows to the largest `int`. */
  lemma NarrowedBeginCanWrap()
    ensures Narrow(0x1_7fff_ffff) == MAX_INT
    ensures Selection([Resource("ports", Ranges([Range(0x1_7fff_ffff, 0x1_8000_0000)]))], 2) == [MAX_INT, MIN_INT]
  {
    SuccessorWrapsAtLargestInt("ports", 0x1_7fff_ffff, 0x1_8000_0000);
  }
}
