/** How image-to-binary.py names its output files: the input name loses its extension
    (line 81), and a `_<n>` suffix is added when the plain name is taken (lines 84-88
    for the `.bmp`, 105-109 for the `.raw`). The file system is a finite set of names
    that already exist. */
module Naming {

  datatype Option<T> = None | Some(value: T)

  /** The position of the last `c` in `s`, as `str.rindex` finds it. */
  function LastIndexOf(s: string, c: char): (r: Option<nat>)
    ensures r.None? <==> c !in s
    ensures r.Some? ==> r.value < |s| && s[r.value] == c && c !in s[r.value + 1..]
  {
    if s == [] then None
    else if s[|s| - 1] == c then Some(|s| - 1)
    else
      var r := LastIndexOf(s[..|s| - 1], c);
      assert r.Some? ==> s[r.value + 1..] == s[..|s| - 1][r.value + 1..] + [s[|s| - 1]];
      assert r.None? ==> s == s[..|s| - 1] + [s[|s| - 1]];
      r
  }

  /** Line 81, `filename[:filename.rindex('.')]`: the text before the last '.'. Without
      a '.', `rindex` raises ValueError outside any `try`, which is None here. */
  function StripExtension(name: string): (r: Option<string>)
    ensures r.None? <==> '.' !in name
    ensures r.Some? ==>
      |r.value| < |name| && name[..|r.value|] == r.value &&
      name[|r.value|] == '.' && '.' !in name[|r.value| + 1..]
  {
    match LastIndexOf(name, '.')
    case None => None
    case Some(i) => Some(name[..i])
  }

  /** The decimal digit for d < 10. */
  function Digit(d: nat): char
    requires d < 10
  {
    ('0' as int + d) as char
  }

  /** `str(n)` for a natural number: its decimal digits, most significant first. */
  function Decimal(n: nat): (s: string)
    ensures |s| > 0
  {
    if n < 10 then [Digit(n)] else Decimal(n / 10) + [Digit(n % 10)]
  }

  /** The value of a string of decimal digits. */
  function DigitsValue(s: string): nat
  {
    if s == [] then 0
    else
      var c := s[|s| - 1];
      DigitsValue(s[..|s| - 1]) * 10 + (if '0' <= c <= '9' then c as int - '0' as int else 0)
  }

  /** Reading back what `str` wrote gives the number. */
  lemma {:induction false} DecimalRoundTrip(n: nat)
    ensures DigitsValue(Decimal(n)) == n
  {
    if n >= 10 {
      DecimalRoundTrip(n / 10);
      var s := Decimal(n);
      assert s[..|s| - 1] == Decimal(n / 10);
    }
  }

  /** Distinct numbers have distinct decimal forms. */
  lemma DecimalInjective(m: nat, n: nat)
    requires Decimal(m) == Decimal(n)
    ensures m == n
  {
    DecimalRoundTrip(m);
    DecimalRoundTrip(n);
  }

  /** The candidate name `base_<n>ext` tried by the loops at lines 86 and 107. */
  function Numbered(base: string, ext: string, n: nat): string
  {
    base + "_" + Decimal(n) + ext
  }

  /** Two candidates with the same base and extension differ when their numbers do. */
  lemma NumberedInjective(base: string, ext: string, m: nat, n: nat)
    requires Numbered(base, ext, m) == Numbered(base, ext, n)
    ensures m == n
  {
    var a, b := Numbered(base, ext, m), Numbered(base, ext, n);
    assert a[|base| + 1..|a| - |ext|] == Decimal(m);
    assert b[|base| + 1..|b| - |ext|] == Decimal(n);
    DecimalInjective(m, n);
  }

  /** If the candidates 0..n all exist, the set of existing names has more than n
      members: the search at lines 86-87 always ends. */
  lemma {:induction false} NumberedBound(base: string, ext: string, existing: set<string>, n: nat)
    requires forall k :: 0 <= k <= n ==> Numbered(base, ext, k) in existing
    ensures n < |existing|
  {
    if n > 0 {
      var rest := existing - {Numbered(base, ext, n)};
      forall k | 0 <= k <= n - 1
        ensures Numbered(base, ext, k) in rest
      {
        if Numbered(base, ext, k) == Numbered(base, ext, n) {
          NumberedInjective(base, ext, k, n);
        }
      }
      NumberedBound(base, ext, rest, n - 1);
    } else {
      assert Numbered(base, ext, 0) in existing;
    }
  }

  /** Lines 84-88 and 105-109: the suffix `file_num` that makes `base + suffix + ext` a
      name not yet taken. It is empty when `base + ext` is free, and otherwise `_<n>`
      for the least n whose candidate is free. */
  method FreeSuffix(base: string, ext: string, existing: set<string>) returns (suffix: string)
    ensures base + suffix + ext !in existing
    ensures base + ext !in existing ==> suffix == ""
    ensures base + ext in existing ==>
      exists n: nat :: suffix == "_" + Decimal(n) &&
        forall k :: 0 <= k < n ==> Numbered(base, ext, k) in existing
  {
    suffix := "";
    if base + ext in existing {
      var fileNum := 0;
      while Numbered(base, ext, fileNum) in existing
        invariant forall k :: 0 <= k < fileNum ==> Numbered(base, ext, k) in existing
        decreases |existing| - fileNum
      {
        NumberedBound(base, ext, existing, fileNum);
        fileNum := fileNum + 1;
      }
      suffix := "_" + Decimal(fileNum);
      assert base + suffix + ext == Numbered(base, ext, fileNum);
    } else {
      assert base + suffix + ext == base + ext;
    }
  }
}
