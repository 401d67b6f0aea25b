/** The pure part of loading a folder: the extension allowlist, the
    LINQ filter and the ordinal ignore-case sort of the enumerated paths. */
module FolderScan {
  import opened Paths

  /** The image and raw-photo extensions the viewer accepts. */
  const SupportedExtensions: set<string> := {
    ".jpg", ".jpeg", ".png",
    ".cr2", ".cr3", ".nef", ".arw", ".dng", ".raf", ".rw2", ".orf", ".srw",
    ".pef", ".sr2", ".nrw", ".rwl", ".x3f", ".3fr", ".mef", ".mos", ".kdc",
    ".erf", ".raw"
  }

  /** Membership in the allowlist, which is built with the ordinal
      ignore-case comparer. */
  predicate IsSupported(ext: string)
  {
    exists e | e in SupportedExtensions :: EqualsIgnoreCase(e, ext)
  }

  /** The allowlist ignores letter case: two extensions that differ only in
      case are both allowed or both refused. */
  lemma IsSupportedIgnoresCase(a: string, b: string)
    requires EqualsIgnoreCase(a, b)
    ensures IsSupported(a) <==> IsSupported(b)
  {
  }

  /** Extensions of the allowlist match in any letter case. */
  lemma SupportedInAnyCase()
    ensures IsSupported(".JPG") && IsSupported(".Jpeg") && IsSupported(".cr3") && IsSupported(".RAW")
  {
    assert EqualsIgnoreCase(".jpg", ".JPG");
    assert EqualsIgnoreCase(".jpeg", ".Jpeg");
    assert EqualsIgnoreCase(".cr3", ".cr3");
    assert EqualsIgnoreCase(".raw", ".RAW");
  }

  /** Every allowed extension is a dot and at least three more characters,
      so a missing extension, a shorter one or one without its dot is
      refused. */
  lemma ShortOrUndottedRefused(ext: string)
    requires |ext| < 4 || ext[0] != '.'
    ensures !IsSupported(ext)
  {
    assert forall e | e in SupportedExtensions :: |e| >= 4 && e[0] == '.';
    forall e | e in SupportedExtensions
      ensures !EqualsIgnoreCase(e, ext)
    {
      if |ext| >= 4 {
        assert FoldCase(e)[0] == '.' && FoldCase(ext)[0] == UpperOrdinal(ext[0]);
      }
    }
  }

  /** The Where predicate of LoadFolder. */
  predicate Admitted(p: Path)
  {
    IsSupported(p.ext)
  }

  /** Where(keep): the elements that satisfy keep, in their order. */
  function FilterBy<T(!new)>(s: seq<T>, keep: T -> bool): (r: seq<T>)
    ensures forall x :: multiset(r)[x] == if keep(x) then multiset(s)[x] else 0
  {
    if s == [] then []
    else
      assert s == [s[0]] + s[1..];
      (if keep(s[0]) then [s[0]] else []) + FilterBy(s[1..], keep)
  }

  /** The OrderBy key comparison: full paths under OrdinalIgnoreCase. */
  predicate Before(a: Path, b: Path)
  {
    LeIgnoreCase(FullName(a), FullName(b))
  }

  /** s is ordered by the comparer `le`. */
  ghost predicate SortedBy<T>(s: seq<T>, le: (T, T) -> bool)
  {
    forall i, j :: 0 <= i < j < |s| ==> le(s[i], s[j])
  }

  /** `le` is what OrderBy needs of a comparer: total and transitive. */
  ghost predicate TotalPreorder<T(!new)>(le: (T, T) -> bool)
  {
    (forall a, b :: le(a, b) || le(b, a)) &&
    (forall a, b, c :: le(a, b) && le(b, c) ==> le(a, c))
  }

  /** Places x ahead of the first element it does not come after, so that
      of two equal keys the earlier input stays first (OrderBy is stable). */
  function Insert<T>(x: T, s: seq<T>, le: (T, T) -> bool): seq<T>
  {
    if s == [] || le(x, s[0]) then [x] + s else [s[0]] + Insert(x, s[1..], le)
  }

  /** OrderBy(path => path, comparer), as an insertion sort. */
  function SortBy<T>(s: seq<T>, le: (T, T) -> bool): seq<T>
  {
    if s == [] then [] else Insert(s[0], SortBy(s[1..], le), le)
  }

  /** The list LoadFolder builds from the enumerated files. */
  function Scan(entries: seq<Path>): seq<Path>
  {
    SortBy(FilterBy(entries, Admitted), Before)
  }

  lemma BeforeIsTotalPreorder()
    ensures TotalPreorder(Before)
  {
    forall a, b, c ensures (Before(a, b) || Before(b, a)) && (Before(a, b) && Before(b, c) ==> Before(a, c)) {
      LeIgnoreCaseTotalPreorder(FullName(a), FullName(b), FullName(c));
    }
  }

  lemma {:induction false} InsertPermutes<T>(x: T, s: seq<T>, le: (T, T) -> bool)
    ensures multiset(Insert(x, s, le)) == multiset(s) + multiset{x}
  {
    if s != [] && !le(x, s[0]) {
      InsertPermutes(x, s[1..], le);
      assert s == [s[0]] + s[1..];
    }
  }

  /** Every element of s, and x, comes after a lower bound y of both. */
  lemma InsertKeepsLowerBound<T>(y: T, x: T, s: seq<T>, le: (T, T) -> bool)
    requires le(y, x)
    requires forall k :: 0 <= k < |s| ==> le(y, s[k])
    ensures forall k :: 0 <= k < |Insert(x, s, le)| ==> le(y, Insert(x, s, le)[k])
  {
    var t := Insert(x, s, le);
    InsertPermutes(x, s, le);
    forall k | 0 <= k < |t| ensures le(y, t[k]) {
      assert t[k] in multiset(s) + multiset{x};
      if t[k] != x {
        assert t[k] in s;
      }
    }
  }

  lemma {:induction false} InsertSorted<T(!new)>(x: T, s: seq<T>, le: (T, T) -> bool)
    requires TotalPreorder(le) && SortedBy(s, le)
    ensures SortedBy(Insert(x, s, le), le)
  {
    if s == [] {
    } else if le(x, s[0]) {
      var r := [x] + s;
      forall i, j | 0 <= i < j < |r| ensures le(r[i], r[j]) {
        if i == 0 && j > 1 {
          assert le(x, s[0]) && le(s[0], s[j - 1]);
        }
      }
    } else {
      assert le(s[0], x);
      InsertSorted(x, s[1..], le);
      InsertKeepsLowerBound(s[0], x, s[1..], le);
      var t := Insert(x, s[1..], le);
      var r := [s[0]] + t;
      forall i, j | 0 <= i < j < |r| ensures le(r[i], r[j]) {
        if i > 0 {
          assert r[i] == t[i - 1] && r[j] == t[j - 1];
        } else {
          assert r[j] == t[j - 1];
        }
      }
    }
  }

  /** The sort orders its input by the comparer and is a permutation of it. */
  lemma {:induction false} SortBySorts<T(!new)>(s: seq<T>, le: (T, T) -> bool)
    requires TotalPreorder(le)
    ensures SortedBy(SortBy(s, le), le)
    ensures multiset(SortBy(s, le)) == multiset(s)
  {
    if s != [] {
      SortBySorts(s[1..], le);
      InsertSorted(s[0], SortBy(s[1..], le), le);
      InsertPermutes(s[0], SortBy(s[1..], le), le);
      assert s == [s[0]] + s[1..];
    }
  }

  /** Filtering then sorting keeps exactly the elements the filter admits,
      each as often as it occurs, in the comparer's order. */
  lemma FilterSortSelects<T(!new)>(s: seq<T>, keep: T -> bool, le: (T, T) -> bool)
    requires TotalPreorder(le)
    ensures SortedBy(SortBy(FilterBy(s, keep), le), le)
    ensures forall x :: multiset(SortBy(FilterBy(s, keep), le))[x] == if keep(x) then multiset(s)[x] else 0
    ensures forall x :: x in SortBy(FilterBy(s, keep), le) <==> x in s && keep(x)
  {
    var kept := FilterBy(s, keep);
    var sorted := SortBy(kept, le);
    SortBySorts(kept, le);
    forall x ensures x in sorted <==> x in s && keep(x) {
      calc {
        x in sorted;
        multiset(sorted)[x] > 0;
        multiset(kept)[x] > 0;
        keep(x) && multiset(s)[x] > 0;
        x in s && keep(x);
      }
    }
  }

  /** The folder listing holds exactly the enumerated files whose extension is
      allowed (each as often as it was enumerated), ordered by full path
      under OrdinalIgnoreCase. */
  lemma ScanSelectsAndSorts(entries: seq<Path>)
    ensures SortedBy(Scan(entries), Before)
    ensures forall p :: multiset(Scan(entries))[p] == if IsSupported(p.ext) then multiset(entries)[p] else 0
    ensures forall p :: p in Scan(entries) <==> p in entries && IsSupported(p.ext)
  {
    BeforeIsTotalPreorder();
    FilterSortSelects(entries, Admitted, Before);
  }
}
