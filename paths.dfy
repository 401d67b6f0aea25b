/** File paths and the string rules of .NET that the review session relies on:
    Path.Combine, and the StringComparer.OrdinalIgnoreCase ordering. */
module Paths {

  /** A file path as .NET's Path helpers split it: the directory
      (GetDirectoryName), the name without its extension
      (GetFileNameWithoutExtension) and the extension with its leading dot,
      or "" when there is none (GetExtension). */
  datatype Path = Path(dir: string, stem: string, ext: string)

  /** The last component of a path (GetFileName). */
  function FileName(p: Path): string
  {
    p.stem + p.ext
  }

  predicate IsSeparator(c: char)
  {
    c == '\\' || c == '/'
  }

  /** Path.Combine of a directory and a relative name on Windows: a separator
      is put between them unless the directory is empty or already ends in one. */
  function Combine(dir: string, name: string): string
  {
    if dir == [] then name
    else if IsSeparator(dir[|dir| - 1]) then dir + name
    else dir + "\\" + name
  }

  /** The combined path starts with the directory and ends with the name;
      what comes between them, if anything, is a single backslash. */
  lemma CombineParts(dir: string, name: string)
    ensures |dir| + |name| <= |Combine(dir, name)| <= |dir| + |name| + 1
    ensures |Combine(dir, name)| == |dir| + |name| + 1 ==> Combine(dir, name)[|dir|] == '\\'
    ensures Combine(dir, name)[..|dir|] == dir
    ensures Combine(dir, name)[|Combine(dir, name)| - |name|..] == name
  {
  }

  /** The full path string, which is what the folder listing is sorted by. */
  function FullName(p: Path): string
  {
    Combine(p.dir, FileName(p))
  }

  /** The ordinal ignore-case comparer folds each code unit to upper case
      before comparing; only the ASCII letters are folded here. */
  function UpperOrdinal(c: char): (r: char)
  {
    if 'a' <= c <= 'z' then (c as int - 32) as char else c
  }

  function FoldCase(s: string): (r: string)
  {
    seq(|s|, i requires 0 <= i < |s| => UpperOrdinal(s[i]))
  }

  /** Folding is idempotent: a folded string equals its source ignoring case. */
  lemma FoldCaseIdempotent(s: string)
    ensures EqualsIgnoreCase(FoldCase(s), s)
    ensures FoldCase(FoldCase(s)) == FoldCase(s)
  {
  }

  /** OrdinalIgnoreCase equality, as used by the extension allowlist. */
  predicate EqualsIgnoreCase(a: string, b: string)
  {
    FoldCase(a) == FoldCase(b)
  }

  /** Ordinal ordering, character by character: a proper prefix comes first.
      A Dafny char is a Unicode scalar value, so this compares code points;
      .NET compares UTF-16 code units, which orders the characters above
      U+FFFF differently. */
  predicate OrdinalLe(a: string, b: string)
  {
    a == [] || (b != [] && (a[0] < b[0] || (a[0] == b[0] && OrdinalLe(a[1..], b[1..]))))
  }

  /** StringComparer.OrdinalIgnoreCase, as a "less than or equal" relation. */
  predicate LeIgnoreCase(a: string, b: string)
  {
    OrdinalLe(FoldCase(a), FoldCase(b))
  }

  lemma {:induction false} OrdinalLeReflexive(a: string)
    ensures OrdinalLe(a, a)
  {
    if a != [] {
      OrdinalLeReflexive(a[1..]);
    }
  }

  lemma {:induction false} OrdinalLeTotal(a: string, b: string)
    ensures OrdinalLe(a, b) || OrdinalLe(b, a)
  {
    if a != [] && b != [] && a[0] == b[0] {
      OrdinalLeTotal(a[1..], b[1..]);
    }
  }

  lemma {:induction false} OrdinalLeTransitive(a: string, b: string, c: string)
    requires OrdinalLe(a, b) && OrdinalLe(b, c)
    ensures OrdinalLe(a, c)
  {
    if a != [] && b != [] && c != [] && a[0] == b[0] == c[0] {
      OrdinalLeTransitive(a[1..], b[1..], c[1..]);
    }
  }

  lemma {:induction false} OrdinalLeAntisymmetric(a: string, b: string)
    requires OrdinalLe(a, b) && OrdinalLe(b, a)
    ensures a == b
  {
    if a != [] && b != [] {
      OrdinalLeAntisymmetric(a[1..], b[1..]);
      assert a == [a[0]] + a[1..] && b == [b[0]] + b[1..];
    }
  }

  /** The ignore-case ordering is a total preorder on strings. */
  lemma LeIgnoreCaseTotalPreorder(a: string, b: string, c: string)
    ensures LeIgnoreCase(a, a)
    ensures LeIgnoreCase(a, b) || LeIgnoreCase(b, a)
    ensures LeIgnoreCase(a, b) && LeIgnoreCase(b, c) ==> LeIgnoreCase(a, c)
    ensures LeIgnoreCase(a, b) && LeIgnoreCase(b, a) ==> EqualsIgnoreCase(a, b)
  {
    OrdinalLeReflexive(FoldCase(a));
    OrdinalLeTotal(FoldCase(a), FoldCase(b));
    if LeIgnoreCase(a, b) && LeIgnoreCase(b, c) {
      OrdinalLeTransitive(FoldCase(a), FoldCase(b), FoldCase(c));
    }
    if LeIgnoreCase(a, b) && LeIgnoreCase(b, a) {
      OrdinalLeAntisymmetric(FoldCase(a), FoldCase(b));
    }
  }

  /** The character of one decimal digit. */
  function DigitChar(d: nat): (c: char)
    requires d < 10
    ensures '0' <= c <= '9'
    ensures c as int == '0' as int + d
  {
    "0123456789"[d]
  }

  /** The decimal form of a natural number, as string interpolation writes it. */
  function DecimalString(n: nat): (r: string)
    ensures |r| > 0
    ensures |r| == 1 <==> n < 10
    ensures forall i :: 0 <= i < |r| ==> '0' <= r[i] <= '9'
  {
    if n < 10 then [DigitChar(n)] else DecimalString(n / 10) + [DigitChar(n % 10)]
  }

  /** Different numbers have different decimal forms: the last digit is
      n % 10 and the digits before it are the decimal form of n / 10. */
  lemma {:induction false} DecimalStringInjective(m: nat, n: nat)
    requires DecimalString(m) == DecimalString(n)
    ensures m == n
  {
    var a, b := DecimalString(m), DecimalString(n);
    if m < 10 {
      assert DigitChar(m) == a[0] == b[0] == DigitChar(n);
    } else {
      assert DigitChar(m % 10) == a[|a| - 1] == b[|b| - 1] == DigitChar(n % 10);
      assert DecimalString(m / 10) == a[..|a| - 1] == b[..|b| - 1] == DecimalString(n / 10);
      DecimalStringInjective(m / 10, n / 10);
    }
  }
}
