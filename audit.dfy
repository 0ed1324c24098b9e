/** The data-imbalance check: count the files of every keyword directory, and flag
    the directories holding fewer than half the average count. */
module Audit {
  import opened Naming
  import opened FileSystem

  /** One entry of `dict_num_files`: a directory and its file count. */
  datatype DirCount = DirCount(dir: string, count: nat)

  /** The number of files over all entries. */
  function Total(es: seq<DirCount>): nat
  {
    if |es| == 0 then 0 else Total(es[..|es| - 1]) + es[|es| - 1].count
  }

  /** `n_files < avg * 0.5` in exact integers: with `avg = total / n`, a count is
      too small when twice the count times `n` is below the total. */
  predicate TooSmall(count: nat, n: nat, total: nat)
  {
    2 * count * n < total
  }

  /** The entries of `es` that are too small for `n` entries and `total` files,
      in their order. */
  function Below(es: seq<DirCount>, n: nat, total: nat): seq<DirCount>
  {
    if |es| == 0 then []
    else
      var e := es[|es| - 1];
      Below(es[..|es| - 1], n, total) + (if TooSmall(e.count, n, total) then [e] else [])
  }

  /** `dict_too_small`: the entries below half the average, in listing order. */
  function Flagged(es: seq<DirCount>): seq<DirCount>
  {
    Below(es, |es|, Total(es))
  }

  /** The running sum `avg += n_files / len(dict_num_files)`, over the reals. */
  function AverageSum(es: seq<DirCount>, n: nat): real
    requires n > 0
  {
    if |es| == 0 then 0.0 else AverageSum(es[..|es| - 1], n) + (es[|es| - 1].count as real) / (n as real)
  }

  /** The exact-integer test is the source's test on the real-valued average. */
  lemma {:induction false} AverageSumIsMean(es: seq<DirCount>, n: nat)
    requires n > 0
    ensures AverageSum(es, n) == (Total(es) as real) / (n as real)
  {
    if |es| > 0 {
      AverageSumIsMean(es[..|es| - 1], n);
    }
  }

  lemma HalfAverage(count: nat, n: nat, total: nat)
    requires n > 0
    ensures (count as real) < ((total as real) / (n as real)) * 0.5 <==> TooSmall(count, n, total)
  {
    var a := (total as real) / (n as real);
    assert a * (n as real) == total as real;
    var lhs := (count as real) * 2.0 * (n as real);
    assert (count as real) < a * 0.5 <==> lhs < a * (n as real) by {
      assert (count as real) < a * 0.5 <==> (count as real) * 2.0 < a;
      assert (count as real) * 2.0 < a <==> (count as real) * 2.0 * (n as real) < a * (n as real);
    }
    assert lhs == (2 * count * n) as real;
  }

  /** The two passes of `imbalance_check` over the counts: sum up the average,
      then pick the entries below half of it. */
  method FindTooSmall(es: seq<DirCount>) returns (tooSmall: seq<DirCount>)
    ensures tooSmall == Flagged(es)
  {
    var avg: real := 0.0;
    var i := 0;
    while i < |es|
      invariant 0 <= i <= |es|
      invariant |es| > 0 ==> avg == AverageSum(es[..i], |es|)
    {
      avg := avg + (es[i].count as real) / (|es| as real);
      assert es[..i + 1][..i] == es[..i];
      i := i + 1;
    }
    if |es| > 0 {
      assert es[..|es|] == es;
      AverageSumIsMean(es, |es|);
    }
    tooSmall := [];
    i := 0;
    while i < |es|
      invariant 0 <= i <= |es|
      invariant tooSmall == Below(es[..i], |es|, Total(es))
    {
      HalfAverage(es[i].count, |es|, Total(es));
      if (es[i].count as real) < avg * 0.5 {
        tooSmall := tooSmall + [es[i]];
      }
      assert es[..i + 1][..i] == es[..i];
      i := i + 1;
    }
    assert es[..|es|] == es;
  }

  /** An entry is flagged exactly when it is listed and too small. */
  lemma {:induction false} BelowMembers(es: seq<DirCount>, n: nat, total: nat)
    ensures forall e :: e in Below(es, n, total) <==> e in es && TooSmall(e.count, n, total)
    ensures |Below(es, n, total)| <= |es|
  {
    if |es| > 0 {
      BelowMembers(es[..|es| - 1], n, total);
      assert es == es[..|es| - 1] + [es[|es| - 1]];
    }
  }

  /** No entry holds more than the largest count, so the total is at most the
      number of entries times it. */
  lemma {:induction false} TotalAtMost(es: seq<DirCount>, m: nat)
    requires forall e :: e in es ==> e.count <= m
    ensures Total(es) <= |es| * m
  {
    if |es| > 0 {
      TotalAtMost(es[..|es| - 1], m);
      assert es[|es| - 1] in es;
    }
  }

  /** Every count is the same: the total is that many times the count. */
  lemma {:induction false} TotalOfUniform(es: seq<DirCount>, m: nat)
    requires forall e :: e in es ==> e.count == m
    ensures Total(es) == |es| * m
  {
    if |es| > 0 {
      TotalOfUniform(es[..|es| - 1], m);
      assert es[|es| - 1] in es;
    }
  }

  /** An entry that is not too small keeps the filter from taking everything. */
  lemma {:induction false} BelowMissesOne(es: seq<DirCount>, n: nat, total: nat, m: DirCount)
    requires m in es && !TooSmall(m.count, n, total)
    ensures |Below(es, n, total)| < |es|
  {
    var init := es[..|es| - 1];
    BelowMembers(init, n, total);
    if es[|es| - 1] != m {
      assert es == init + [es[|es| - 1]];
      BelowMissesOne(init, n, total, m);
    }
  }

  /** The flagged entries are those below half the average. */
  lemma FlaggedEntries(es: seq<DirCount>)
    ensures forall e :: e in Flagged(es) <==> e in es && TooSmall(e.count, |es|, Total(es))
  {
    BelowMembers(es, |es|, Total(es));
  }

  /** A largest entry is never flagged, so the check never flags every
      directory. */
  lemma LargestNeverFlagged(es: seq<DirCount>)
    ensures forall e :: e in es && (forall f :: f in es ==> f.count <= e.count) ==> e !in Flagged(es)
    ensures |es| > 0 ==> |Flagged(es)| < |es|
  {
    FlaggedEntries(es);
    forall e | e in es && (forall f :: f in es ==> f.count <= e.count)
      ensures !TooSmall(e.count, |es|, Total(es))
    {
      TotalAtMost(es, e.count);
      NotBelowHalf(e.count, |es|, Total(es));
    }
    if |es| > 0 {
      var m := MaxEntry(es);
      BelowMissesOne(es, |es|, Total(es), m);
    }
  }

  lemma NotBelowHalf(count: nat, n: nat, total: nat)
    requires total <= n * count
    ensures !TooSmall(count, n, total)
  {
    assert 2 * count * n == n * count + n * count;
  }

  /** Directories that all hold the same number of files are never flagged. */
  lemma BalancedNeverFlagged(es: seq<DirCount>)
    requires forall e, f :: e in es && f in es ==> e.count == f.count
    ensures Flagged(es) == []
  {
    FlaggedEntries(es);
    if |Flagged(es)| > 0 {
      var e := Flagged(es)[0];
      assert e in Flagged(es);
      TotalOfUniform(es, e.count);
    }
  }

  /** An entry with the largest count. */
  function MaxEntry(es: seq<DirCount>): (m: DirCount)
    requires |es| > 0
    ensures m in es && forall f :: f in es ==> f.count <= m.count
  {
    if |es| == 1 then es[0]
    else
      var m := MaxEntry(es[..|es| - 1]);
      assert es == es[..|es| - 1] + [es[|es| - 1]];
      if es[|es| - 1].count > m.count then es[|es| - 1] else m
  }

  /** Three directories with 10, 10 and 2 files: the average is 22/3, and only
      the one with 2 files is below half of it. */
  lemma OneSmallDirectory()
    ensures Flagged([DirCount("d/a", 10), DirCount("d/b", 10), DirCount("d/c", 2)]) == [DirCount("d/c", 2)]
  {
    var a, b, c := DirCount("d/a", 10), DirCount("d/b", 10), DirCount("d/c", 2);
    var es := [a, b, c];
    assert es[..2] == [a, b] && [a, b][..1] == [a] && [a][..0] == [];
    assert Total([a]) == 10;
    assert Total([a, b]) == 20;
    assert Total(es) == 22;
    assert Below([a], 3, 22) == [];
    assert Below([a, b], 3, 22) == [];
  }

  // ---------------------------------------------------------------------------
  // the listing the counts come from, and what removing the flagged ones keeps
  // ---------------------------------------------------------------------------

  /** `dict_num_files` for `root` on disk `d`: every directory directly inside
      `root` once, in some order, with the number of files directly inside it. */
  predicate IsListing(es: seq<DirCount>, d: Disk, root: string)
  {
    && (forall i, j :: 0 <= i < j < |es| ==> es[i].dir != es[j].dir)
    && SubDirs(d, root) == (set i | 0 <= i < |es| :: es[i].dir)
    && (forall i :: 0 <= i < |es| ==> es[i].count == FileCount(d, es[i].dir))
  }

  /** The directories of the entries, in order. */
  function DirsOf(es: seq<DirCount>): (r: seq<string>)
    ensures |r| == |es| && forall i :: 0 <= i < |es| ==> r[i] == es[i].dir
  {
    if |es| == 0 then [] else DirsOf(es[..|es| - 1]) + [es[|es| - 1].dir]
  }

  /** Removing the flagged directories' trees keeps every file of every
      directory that was listed and not flagged, with its contents. */
  lemma RemovalKeepsUnflagged(es: seq<DirCount>, d: Disk, root: string)
    requires IsListing(es, d, root)
    ensures forall e, p :: e in es && e !in Flagged(es) && p in d.files && InTree(p, e.dir) ==>
      p in TreesRemoved(d, DirsOf(Flagged(es))).files &&
      TreesRemoved(d, DirsOf(Flagged(es))).files[p] == d.files[p]
  {
    var fs := Flagged(es);
    var ds := DirsOf(fs);
    FlaggedEntries(es);
    forall e, p | e in es && e !in fs && p in d.files && InTree(p, e.dir)
      ensures p in TreesRemoved(d, ds).files
    {
      forall k | 0 <= k < |ds|
        ensures !InTree(p, ds[k])
      {
        assert fs[k] in fs;
        OtherListedTree(es, d, root, e, fs[k], p);
      }
    }
  }

  /** Two different entries of a listing have disjoint trees. */
  lemma OtherListedTree(es: seq<DirCount>, d: Disk, root: string, e: DirCount, f: DirCount, p: string)
    requires IsListing(es, d, root)
    requires e in es && f in es && e != f
    requires InTree(p, e.dir)
    ensures !InTree(p, f.dir)
  {
    var i :| 0 <= i < |es| && es[i] == e;
    var j :| 0 <= j < |es| && es[j] == f;
    assert es[i].dir in (set k | 0 <= k < |es| :: es[k].dir);
    assert es[j].dir in (set k | 0 <= k < |es| :: es[k].dir);
    assert e.dir in SubDirs(d, root) && f.dir in SubDirs(d, root);
    assert ChildOf(e.dir, root) && ChildOf(f.dir, root);
    assert i != j;
    assert e.dir != f.dir;
    SiblingTreesDisjoint(root, f.dir, e.dir, p);
  }
}
