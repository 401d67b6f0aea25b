/** The collision-free naming used when a file is moved: the path itself if
    it is free, else the first free `{stem}_{i}{ext}` in the same directory. */
module UniqueNames {
  import opened Wrappers
  import opened Paths

  /** The suffix loop runs i = 1, 2, ..., SuffixLimit - 1. */
  const SuffixLimit: nat := 10000

  /** The i-th alternative name for p: `{stem}_{i}{ext}` in p's directory. */
  function Candidate(p: Path, i: nat): (r: Path)
    ensures r.dir == p.dir && r.ext == p.ext && r != p
  {
    Path(p.dir, p.stem + "_" + DecimalString(i), p.ext)
  }

  /** Different suffixes give different names, so the suffix loop never
      asks about the same path twice. */
  lemma CandidateInjective(p: Path, i: nat, j: nat)
    requires Candidate(p, i) == Candidate(p, j)
    ensures i == j
  {
    var prefix := p.stem + "_";
    assert DecimalString(i) == Candidate(p, i).stem[|prefix|..];
    assert DecimalString(j) == Candidate(p, j).stem[|prefix|..];
    DecimalStringInjective(i, j);
  }

  /** The first suffix from i on whose candidate is free, if any before the limit. */
  function FirstFreeSuffix(disk: set<Path>, p: Path, i: nat): (r: Option<nat>)
    decreases SuffixLimit - i
    ensures r.Some? ==> i <= r.value < SuffixLimit && Candidate(p, r.value) !in disk
    ensures r.Some? ==> forall k :: i <= k < r.value ==> Candidate(p, k) in disk
    ensures r.None? <==> forall k :: i <= k < SuffixLimit ==> Candidate(p, k) in disk
  {
    if i >= SuffixLimit then None
    else if Candidate(p, i) !in disk then Some(i)
    else FirstFreeSuffix(disk, p, i + 1)
  }

  /** What GetUniquePath returns; None stands for its IOException. */
  function UniquePath(disk: set<Path>, p: Path): (r: Option<Path>)
    ensures r.Some? ==> r.value !in disk && r.value.dir == p.dir
  {
    if p !in disk then Some(p)
    else match FirstFreeSuffix(disk, p, 1)
      case None => None
      case Some(k) => Some(Candidate(p, k))
  }

  /** GetUniquePath keeps a free path, otherwise gives the first free
      candidate with suffix 1 to 9999, and fails exactly when all are taken. */
  lemma UniquePathChoice(disk: set<Path>, p: Path)
    ensures p !in disk ==> UniquePath(disk, p) == Some(p)
    ensures p in disk ==> (UniquePath(disk, p).None? <==> forall k :: 1 <= k < SuffixLimit ==> Candidate(p, k) in disk)
    ensures p in disk && UniquePath(disk, p).Some? ==>
      exists k :: 1 <= k < SuffixLimit && UniquePath(disk, p).value == Candidate(p, k) &&
        forall j :: 1 <= j < k ==> Candidate(p, j) in disk
  {
    if p in disk && UniquePath(disk, p).Some? {
      var k := FirstFreeSuffix(disk, p, 1).value;
      assert UniquePath(disk, p).value == Candidate(p, k);
    }
  }

  /** The search returns the first free candidate: any free suffix with all
      smaller ones taken is the one chosen. */
  lemma {:induction false} FirstFreeSuffixIsFirst(disk: set<Path>, p: Path, i: nat, k: nat)
    requires i <= k < SuffixLimit && Candidate(p, k) !in disk
    requires forall j :: i <= j < k ==> Candidate(p, j) in disk
    ensures FirstFreeSuffix(disk, p, i) == Some(k)
    decreases k - i
  {
    if i < k {
      FirstFreeSuffixIsFirst(disk, p, i + 1, k);
    }
  }

  lemma UniquePathPicksFirstFree(disk: set<Path>, p: Path, k: nat)
    requires p in disk && 1 <= k < SuffixLimit && Candidate(p, k) !in disk
    requires forall j :: 1 <= j < k ==> Candidate(p, j) in disk
    ensures UniquePath(disk, p) == Some(Candidate(p, k))
  {
    FirstFreeSuffixIsFirst(disk, p, 1, k);
  }

  /** Once the name GetUniquePath gave is taken, asking again for the same
      path yields a different name, with a larger suffix (or no name at all). */
  lemma RepeatedRequestAdvances(disk: set<Path>, p: Path)
    requires p in disk && FirstFreeSuffix(disk, p, 1).Some?
    ensures var k := FirstFreeSuffix(disk, p, 1).value;
      var again := FirstFreeSuffix(disk + {Candidate(p, k)}, p, 1);
      again.None? || again.value > k
    ensures var first := UniquePath(disk, p);
      first.Some? && UniquePath(disk + {first.value}, p) != first
  {
    var k := FirstFreeSuffix(disk, p, 1).value;
    var bigger := disk + {Candidate(p, k)};
    var again := FirstFreeSuffix(bigger, p, 1);
    if again.Some? {
      var j := again.value;
      assert Candidate(p, j) !in bigger;
      assert j != k;
    }
    assert UniquePath(disk, p) == Some(Candidate(p, k));
    var second := UniquePath(bigger, p);
    assert second.Some? ==> second.value !in bigger;
  }
}
