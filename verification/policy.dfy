/**
 * The path-selection policy of the multipath SCION/QUIC transport
 * (package mpsquic, file pkg/mpsquic/policy.go).
 *
 * A policy is handed a snapshot of the candidate paths and answers with the
 * index of the path to use and the time at which the choice should be
 * reconsidered. The one policy of the package, lowestRTT, scans the
 * candidates once and keeps a running best under a pairwise comparator.
 */
module MpSquic {

  /** A Go time.Duration: a signed 64-bit count of nanoseconds. */
  newtype Duration = d: int | -0x8000_0000_0000_0000 <= d < 0x8000_0000_0000_0000

  /** A point in time, in nanoseconds; the wall clock is an input of Select. */
  type Time = int

  /** How long a choice of lowestRTT stands before it is re-evaluated: one second. */
  const LowestRTTReevaluateInterval: Duration := 1_000_000_000

  /** One forwarding interface of a path: the AS it belongs to and its interface id. */
  datatype PathInterface = PathInterface(ia: nat, ifid: nat)

  /** The part of a SCION path the policy looks at: its interface list. */
  datatype Path = Path(interfaces: seq<PathInterface>)

  /** What the session manager knows about one candidate path. */
  datatype PathInfo = PathInfo(path: Path, rtt: Duration, revoked: bool)

  /** The number of hops of a path, used only to break RTT ties. */
  function NumHops(path: Path): nat
  {
    |path.interfaces|
  }

  /**
   * Lexicographic order on (rtt, hop count): the order lowestRTT's doc
   * comment describes, defined independently of the comparator.
   */
  predicate KeyLess(a: PathInfo, b: PathInfo)
  {
    a.rtt < b.rtt || (a.rtt == b.rtt && NumHops(a.path) < NumHops(b.path))
  }

  /**
   * The comparator of lowestRTT, exactly as the source writes it: Go's &&
   * binds tighter than ||, so a lower RTT wins even against liveness.
   * The ensures clauses say what that means case by case on the two
   * revocation flags, and together they determine the result.
   */
  function Better(a: PathInfo, b: PathInfo): (r: bool)
    // a live path beats a revoked one whatever their RTTs
    ensures !a.revoked && b.revoked ==> r
    // a lower RTT wins whatever the revocation flags
    ensures a.rtt < b.rtt ==> r
    // between equally revoked paths: lexicographic on (rtt, hops)
    ensures a.revoked == b.revoked ==> (r <==> KeyLess(a, b))
    // a revoked path beats a live one exactly when its RTT is lower
    ensures a.revoked && !b.revoked ==> (r <==> a.rtt < b.rtt)
  {
    ((!a.revoked && b.revoked) || a.rtt < b.rtt) ||
    (a.revoked == b.revoked && a.rtt == b.rtt && NumHops(a.path) < NumHops(b.path))
  }

  /** All candidates carry the same revocation flag. */
  predicate UniformRevocation(paths: seq<PathInfo>)
  {
    forall i, j :: 0 <= i < |paths| && 0 <= j < |paths| ==> paths[i].revoked == paths[j].revoked
  }

  /**
   * Index k holds the lowest RTT; among the paths with that RTT it has the
   * fewest hops; and no earlier path has the same (rtt, hops) pair.
   */
  predicate IsLowestRTTChoice(paths: seq<PathInfo>, k: nat)
  {
    k < |paths| &&
    (forall j :: 0 <= j < |paths| ==> paths[k].rtt <= paths[j].rtt) &&
    (forall j :: 0 <= j < |paths| && paths[j].rtt == paths[k].rtt ==>
       NumHops(paths[k].path) <= NumHops(paths[j].path)) &&
    (forall j :: 0 <= j < k ==>
       paths[j].rtt != paths[k].rtt || NumHops(paths[j].path) != NumHops(paths[k].path))
  }

  /** All candidates carry the same RTT, as when none has been measured yet. */
  predicate UniformRTT(paths: seq<PathInfo>)
  {
    forall i, j :: 0 <= i < |paths| && 0 <= j < |paths| ==> paths[i].rtt == paths[j].rtt
  }

  /**
   * Index k is live whenever some candidate is; among the candidates with
   * its revocation flag it has the fewest hops; and no earlier candidate has
   * the same (revoked, hops) pair.
   */
  predicate IsFewestHopsChoice(paths: seq<PathInfo>, k: nat)
  {
    k < |paths| &&
    (forall j :: 0 <= j < |paths| && !paths[j].revoked ==> !paths[k].revoked) &&
    (forall j :: 0 <= j < |paths| && paths[j].revoked == paths[k].revoked ==>
       NumHops(paths[k].path) <= NumHops(paths[j].path)) &&
    (forall j :: 0 <= j < k ==>
       paths[j].revoked != paths[k].revoked || NumHops(paths[j].path) != NumHops(paths[k].path))
  }

  /**
   * The index the lowestRTT scan settles on: index 0 to begin with, then
   * each later candidate replaces the running best when it is Better.
   */
  function Chosen(paths: seq<PathInfo>): (b: nat)
    ensures |paths| == 0 ==> b == 0
    ensures |paths| > 0 ==> b < |paths|
    decreases |paths|
  {
    if |paths| <= 1 then 0
    else
      var prev := Chosen(paths[..|paths| - 1]);
      if Better(paths[|paths| - 1], paths[prev]) then |paths| - 1 else prev
  }

  // ---------------------------------------------------------------------
  // The comparator

  /** Nothing is better than itself, so an exact tie keeps the earlier index. */
  lemma BetterIrreflexive(a: PathInfo)
    ensures !Better(a, a)
  {
  }

  /**
   * Between paths with the same revocation flag, Better is a strict total
   * order on (rtt, hops): asymmetric, transitive, and it separates any two
   * paths whose (rtt, hops) pairs differ.
   */
  lemma BetterStrictOrderWhenSameFlag(a: PathInfo, b: PathInfo, c: PathInfo)
    requires a.revoked == b.revoked == c.revoked
    ensures !(Better(a, b) && Better(b, a))
    ensures Better(a, b) && Better(b, c) ==> Better(a, c)
    ensures a.rtt != b.rtt || NumHops(a.path) != NumHops(b.path) ==> Better(a, b) || Better(b, a)
  {
  }

  /** Across different revocation flags, each path can be better than the other. */
  lemma BetterNotAsymmetric()
    ensures exists a, b :: Better(a, b) && Better(b, a)
  {
    var live := PathInfo(Path([]), 80, false);
    var revoked := PathInfo(Path([]), 10, true);
    assert Better(live, revoked) && Better(revoked, live);
  }

  /** Across different revocation flags, Better is not transitive. */
  lemma BetterNotTransitive()
    ensures exists a, b, c :: Better(a, b) && Better(b, c) && !Better(a, c)
  {
    var a := PathInfo(Path([]), 5, true);
    var b := PathInfo(Path([]), 10, false);
    var c := PathInfo(Path([]), 1, true);
    assert Better(a, b) && Better(b, c) && !Better(a, c);
  }

  // ---------------------------------------------------------------------
  // The scan

  /** The scan's result is never beaten by any candidate after it. */
  lemma {:induction false} ChosenNoLaterBetter(paths: seq<PathInfo>)
    ensures forall j :: Chosen(paths) < j < |paths| ==> !Better(paths[j], paths[Chosen(paths)])
  {
    if |paths| > 1 {
      var init := paths[..|paths| - 1];
      ChosenNoLaterBetter(init);
      var prev := Chosen(init);
      forall j | Chosen(paths) < j < |paths|
        ensures !Better(paths[j], paths[Chosen(paths)])
      {
        if j < |paths| - 1 {
          assert paths[j] == init[j];
        }
      }
    }
  }

  /**
   * When every candidate has the same revocation flag, the scan picks the
   * lowest RTT, then the fewest hops, then the earliest index.
   */
  lemma {:induction false} ChosenLowestWhenUniform(paths: seq<PathInfo>)
    requires |paths| > 0
    requires UniformRevocation(paths)
    ensures IsLowestRTTChoice(paths, Chosen(paths))
  {
    if |paths| > 1 {
      var n := |paths| - 1;
      var init := paths[..n];
      assert UniformRevocation(init) by {
        forall i, j | 0 <= i < |init| && 0 <= j < |init|
          ensures init[i].revoked == init[j].revoked
        {
          assert init[i] == paths[i] && init[j] == paths[j];
        }
      }
      ChosenLowestWhenUniform(init);
      var prev := Chosen(init);
      assert paths[prev] == init[prev];
      assert paths[n].revoked == paths[prev].revoked;
      forall j | 0 <= j < n
        ensures paths[j] == init[j]
      {
      }
    }
  }

  /** Two indices that both satisfy IsLowestRTTChoice are the same index. */
  lemma LowestRTTChoiceUnique(paths: seq<PathInfo>, k1: nat, k2: nat)
    requires IsLowestRTTChoice(paths, k1) && IsLowestRTTChoice(paths, k2)
    ensures k1 == k2
  {
    // both hold the lowest RTT, and both the fewest hops at that RTT,
    // so their pairs agree and neither can come before the other
    assert paths[k1].rtt <= paths[k2].rtt && paths[k2].rtt <= paths[k1].rtt;
    assert NumHops(paths[k1].path) <= NumHops(paths[k2].path);
    assert NumHops(paths[k2].path) <= NumHops(paths[k1].path);
  }

  /**
   * A revoked path can be selected although a live one is on offer:
   * [live at 80ns, revoked at 10ns] selects index 1.
   */
  lemma RevokedPathCanBeChosen()
    ensures exists paths: seq<PathInfo> ::
              Chosen(paths) < |paths| && paths[Chosen(paths)].revoked &&
              exists j :: 0 <= j < |paths| && !paths[j].revoked
  {
    var paths := [PathInfo(Path([]), 80, false), PathInfo(Path([]), 10, true)];
    assert paths[..1] == [paths[0]];
    assert Chosen(paths) == 1;
    assert !paths[0].revoked;
  }

  /**
   * With mixed revocation flags the scan can settle on a live path that is
   * slower than another live path: [live at 30, revoked at 10, live at 50]
   * selects index 2 over the faster live index 0.
   */
  lemma LiveChoiceNotFastestLive()
    ensures exists paths: seq<PathInfo> ::
              Chosen(paths) < |paths| && !paths[Chosen(paths)].revoked &&
              exists j :: 0 <= j < |paths| && !paths[j].revoked && paths[j].rtt < paths[Chosen(paths)].rtt
  {
    var paths := [PathInfo(Path([]), 30, false), PathInfo(Path([]), 10, true), PathInfo(Path([]), 50, false)];
    assert paths[..2][..1] == [paths[0]];
    assert paths[..2] == [paths[0], paths[1]];
    assert Chosen(paths[..2]) == 1;
    assert Chosen(paths) == 2;
    assert !paths[0].revoked && paths[0].rtt < paths[2].rtt;
  }

  /**
   * When every candidate has the same RTT (none measured yet), the scan
   * returns a live path if there is one, with the fewest hops among the
   * paths of its revocation flag, and the earliest such index.
   */
  lemma {:induction false} ChosenFewestHopsWhenRTTsEqual(paths: seq<PathInfo>)
    requires |paths| > 0
    requires UniformRTT(paths)
    ensures IsFewestHopsChoice(paths, Chosen(paths))
  {
    if |paths| > 1 {
      var n := |paths| - 1;
      var init := paths[..n];
      assert UniformRTT(init) by {
        forall i, j | 0 <= i < |init| && 0 <= j < |init|
          ensures init[i].rtt == init[j].rtt
        {
          assert init[i] == paths[i] && init[j] == paths[j];
        }
      }
      ChosenFewestHopsWhenRTTsEqual(init);
      var prev := Chosen(init);
      assert paths[prev] == init[prev];
      assert paths[n].rtt == paths[prev].rtt;
      forall j | 0 <= j < n
        ensures paths[j] == init[j]
      {
      }
    }
  }

  /**
   * Fewest hops overall is not what the scan returns when flags differ:
   * [revoked with 1 hop, live with 5 hops], both at RTT 0, selects index 1.
   */
  lemma FewestHopsOverallFails()
    ensures exists paths: seq<PathInfo> ::
              UniformRTT(paths) && Chosen(paths) < |paths| &&
              exists j :: 0 <= j < |paths| && NumHops(paths[j].path) < NumHops(paths[Chosen(paths)].path)
  {
    var paths := [Candidate(0, true, 1), Candidate(0, false, 5)];
    assert paths[..1] == [paths[0]];
    assert Chosen(paths) == 1;
    assert NumHops(paths[0].path) < NumHops(paths[1].path);
  }

  /** A path with the given RTT, revocation flag and number of hops. */
  function Candidate(rtt: Duration, revoked: bool, hops: nat): (p: PathInfo)
    ensures p.rtt == rtt && p.revoked == revoked && NumHops(p.path) == hops
  {
    PathInfo(Path(seq(hops, _ => PathInterface(0, 0))), rtt, revoked)
  }

  /**
   * Worked cases: a lower RTT beats fewer hops; a live path beats a revoked
   * one with lower RTT when it comes later; fewer hops break an RTT tie;
   * a single candidate is always index 0.
   */
  lemma WorkedExamples(p: PathInfo)
    ensures Chosen([Candidate(50, false, 3), Candidate(20, false, 5)]) == 1
    ensures Chosen([Candidate(10, true, 1), Candidate(80, false, 4)]) == 1
    ensures Chosen([Candidate(30, false, 4), Candidate(30, false, 2)]) == 1
    ensures Chosen([p]) == 0
  {
    var e1 := [Candidate(50, false, 3), Candidate(20, false, 5)];
    var e2 := [Candidate(10, true, 1), Candidate(80, false, 4)];
    var e3 := [Candidate(30, false, 4), Candidate(30, false, 2)];
    assert e1[..1] == [e1[0]] && e2[..1] == [e2[0]] && e3[..1] == [e3[0]];
  }

  /**
   * lowestRTT.Select: the linear best-of scan, with the deadline one
   * re-evaluation interval after `now`. An empty list yields index 0.
   */
  method SelectLowestRTT(paths: seq<PathInfo>, now: Time) returns (best: nat, reevaluateAt: Time)
    ensures best == Chosen(paths)
    ensures |paths| == 0 ==> best == 0
    ensures |paths| > 0 ==> best < |paths|
    ensures |paths| == 1 ==> best == 0
    ensures forall j :: best < j < |paths| ==> !Better(paths[j], paths[best])
    ensures |paths| > 0 && UniformRevocation(paths) ==> IsLowestRTTChoice(paths, best)
    ensures reevaluateAt == now + LowestRTTReevaluateInterval as int
  {
    best := 0;
    var i := 1;
    while i < |paths|
      invariant 1 <= i
      invariant |paths| > 0 ==> i <= |paths| && best == Chosen(paths[..i])
      invariant |paths| == 0 ==> best == 0
    {
      assert paths[..i + 1][..i] == paths[..i];
      if Better(paths[i], paths[best]) {
        best := i;
      }
      i := i + 1;
    }
    if |paths| > 0 {
      assert paths[..i] == paths;
    }
    ChosenNoLaterBetter(paths);
    if |paths| > 0 && UniformRevocation(paths) {
      ChosenLowestWhenUniform(paths);
    }
    reevaluateAt := now + LowestRTTReevaluateInterval as int;
  }

  // ---------------------------------------------------------------------
  // The Policy interface

  /** The path-selection policies; lowestRTT is the only one. */
  datatype Policy = LowestRTT
  {
    /**
     * Policy.Select: the index of the chosen path, valid whenever there is
     * a candidate, and a re-evaluation time later than `now`.
     */
    method Select(paths: seq<PathInfo>, now: Time) returns (index: nat, reevaluateAt: Time)
      ensures |paths| > 0 ==> index < |paths|
      ensures now < reevaluateAt
      ensures this == LowestRTT ==> index == Chosen(paths)
    {
      match this
      case LowestRTT =>
        index, reevaluateAt := SelectLowestRTT(paths, now);
    }
  }
}
