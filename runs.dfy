/** Maximal runs of a chain relation: the independent description of what the
    tokenizer computes. A run is a non-empty stretch of bytes in which the
    predicate holds for every pair of neighbours, and it is maximal when the
    predicate fails across each of its ends. */
module Chains {
  import opened GoStrings
  import opened Predicates

  /** The end of the maximal run of `s` that starts at `i`. */
  function RunEnd(s: seq<byte>, p: Check, i: nat): (e: nat)
    requires i < |s|
    ensures i < e <= |s|
    ensures forall k :: i < k < e ==> p(s[k - 1], s[k])
    ensures e < |s| ==> !p(s[e - 1], s[e])
    decreases |s| - i
  {
    if i + 1 < |s| && p(s[i], s[i + 1]) then RunEnd(s, p, i + 1) else i + 1
  }

  /** The three conditions above determine the end of a run. */
  lemma RunEndUnique(s: seq<byte>, p: Check, i: nat, e: nat)
    requires i < e <= |s|
    requires forall k :: i < k < e ==> p(s[k - 1], s[k])
    requires e < |s| ==> !p(s[e - 1], s[e])
    ensures e == RunEnd(s, p, i)
  {
  }

  /** The maximal runs of `s[i..]`, left to right. */
  function RunsFrom(s: seq<byte>, p: Check, i: nat): (runs: seq<seq<byte>>)
    requires i <= |s|
    decreases |s| - i
  {
    if i == |s| then [] else var e := RunEnd(s, p, i); [s[i..e]] + RunsFrom(s, p, e)
  }

  function Runs(s: seq<byte>, p: Check): seq<seq<byte>>
  {
    RunsFrom(s, p, 0)
  }

  function Flatten(parts: seq<seq<byte>>): seq<byte>
  {
    if parts == [] then [] else parts[0] + Flatten(parts[1..])
  }

  ghost predicate Chained(run: seq<byte>, p: Check)
  {
    forall m :: 0 < m < |run| ==> p(run[m - 1], run[m])
  }

  /** `parts` splits `s` into maximal runs of `p`. */
  ghost predicate MaximalRuns(parts: seq<seq<byte>>, s: seq<byte>, p: Check)
  {
    && Flatten(parts) == s
    && (forall k :: 0 <= k < |parts| ==> parts[k] != [] && Chained(parts[k], p))
    && (forall k :: 0 < k < |parts| ==> !p(parts[k - 1][|parts[k - 1]| - 1], parts[k][0]))
  }

  /** A chained run in front of a split into maximal runs, with the predicate
      failing across the seam, is again a split into maximal runs. */
  lemma MaximalRunsCons(run: seq<byte>, parts: seq<seq<byte>>, s: seq<byte>, p: Check)
    requires run != [] && Chained(run, p) && MaximalRuns(parts, s, p)
    requires parts != [] ==> !p(run[|run| - 1], parts[0][0])
    ensures MaximalRuns([run] + parts, run + s, p)
  {
    var all := [run] + parts;
    assert all[1..] == parts;
    forall k | 0 < k < |all|
      ensures !p(all[k - 1][|all[k - 1]| - 1], all[k][0])
    {
      if k > 1 {
        assert all[k - 1] == parts[k - 2] && all[k] == parts[k - 1];
      }
    }
  }

  lemma {:induction false} RunsFromMaximal(s: seq<byte>, p: Check, i: nat)
    requires i <= |s|
    ensures MaximalRuns(RunsFrom(s, p, i), s[i..], p)
    decreases |s| - i
  {
    if i < |s| {
      var e := RunEnd(s, p, i);
      var run, rest := s[i..e], RunsFrom(s, p, e);
      RunsFromMaximal(s, p, e);
      assert Chained(run, p) by {
        forall m | 0 < m < |run|
          ensures p(run[m - 1], run[m])
        {
          assert run[m - 1] == s[i + m - 1] && run[m] == s[i + m];
        }
      }
      if rest != [] {
        assert rest[0][0] == s[e];
      }
      MaximalRunsCons(run, rest, s[e..], p);
      assert run + s[e..] == s[i..];
    }
  }

  /** Splitting off the first of a sequence of maximal runs. */
  lemma MaximalRunsUncons(parts: seq<seq<byte>>, s: seq<byte>, p: Check)
    requires MaximalRuns(parts, s, p) && parts != []
    ensures var e := |parts[0]|;
      0 < e <= |s| && parts[0] == s[..e]
      && Chained(s[..e], p)
      && (e < |s| <==> |parts| > 1)
      && (e < |s| ==> !p(s[e - 1], s[e]))
      && MaximalRuns(parts[1..], s[e..], p)
  {
    var head, tail := parts[0], parts[1..];
    var e := |head|;
    assert s == head + Flatten(tail);
    assert head == s[..e] && Flatten(tail) == s[e..];
    if |parts| > 1 {
      assert Flatten(tail) == tail[0] + Flatten(tail[1..]);
      assert tail[0] == parts[1] && tail[0] != [];
      assert s[e] == parts[1][0];
    } else {
      assert tail == [];
    }
    forall k | 0 < k < |tail|
      ensures !p(tail[k - 1][|tail[k - 1]| - 1], tail[k][0])
    {
      assert tail[k - 1] == parts[k] && tail[k] == parts[k + 1];
    }
  }

  lemma {:induction false} RunsFromUnique(parts: seq<seq<byte>>, s: seq<byte>, p: Check, i: nat)
    requires i <= |s|
    requires MaximalRuns(parts, s[i..], p)
    ensures parts == RunsFrom(s, p, i)
    decreases |s| - i
  {
    if parts == [] {
      assert s[i..] == [];
    } else {
      var t := s[i..];
      MaximalRunsUncons(parts, t, p);
      var e := i + |parts[0]|;
      assert parts[0] == s[i..e];
      forall k | i < k < e
        ensures p(s[k - 1], s[k])
      {
        assert s[k - 1] == t[..e - i][k - i - 1] && s[k] == t[..e - i][k - i];
      }
      if e < |s| {
        assert s[e - 1] == t[e - i - 1] && s[e] == t[e - i];
      }
      RunEndUnique(s, p, i, e);
      assert t[e - i..] == s[e..];
      RunsFromUnique(parts[1..], s, p, e);
    }
  }

  /** The runs of `s` are exactly its split into maximal runs. */
  lemma RunsCharacterized(parts: seq<seq<byte>>, s: seq<byte>, p: Check)
    ensures MaximalRuns(parts, s, p) <==> parts == Runs(s, p)
  {
    assert s[0..] == s;
    RunsFromMaximal(s, p, 0);
    if MaximalRuns(parts, s, p) {
      RunsFromUnique(parts, s, p, 0);
    }
  }
}
