/**
 * The string helpers of the Python runtime that the sorter depends on:
 * `str.lower` (on ASCII letters), `os.path.splitext` on a file name, and `str(n)`
 * for the decimal counter of renamed duplicates.
 */
module Strings {

  function LowerChar(c: char): char
  {
    if 'A' <= c <= 'Z' then (c as int + 32) as char else c
  }

  /** `s.lower()`: each ASCII capital replaced by its small letter. */
  function Lower(s: string): (r: string)
    ensures |r| == |s|
    ensures forall i :: 0 <= i < |s| ==> r[i] == LowerChar(s[i])
  {
    seq(|s|, i requires 0 <= i < |s| => LowerChar(s[i]))
  }

  predicate IsLower(s: string)
  {
    forall i :: 0 <= i < |s| ==> !('A' <= s[i] <= 'Z')
  }

  lemma LowerIsLower(s: string)
    ensures IsLower(Lower(s))
    ensures Lower(Lower(s)) == Lower(s)
  {
  }

  /** Index of the last '.' in s, or -1 when there is none. */
  function LastDot(s: string): (d: int)
    ensures -1 <= d < |s|
    ensures d >= 0 ==> s[d] == '.'
    ensures forall j :: d < j < |s| ==> s[j] != '.'
  {
    if s == [] then -1
    else if s[|s| - 1] == '.' then |s| - 1
    else LastDot(s[..|s| - 1])
  }

  predicate AllDots(s: string)
  {
    forall i :: 0 <= i < |s| ==> s[i] == '.'
  }

  /**
   * `os.path.splitext(name)` for a name without separators: the extension starts at
   * the last '.', unless only dots come before that '.', in which case there is none.
   * So ".bashrc" has no extension, "a." has ".", and "a.tar.gz" has ".gz".
   */
  function SplitExt(name: string): (r: (string, string))
    ensures r.0 + r.1 == name
  {
    var d := LastDot(name);
    if d >= 0 && !AllDots(name[..d]) then
      assert name[..d] + name[d..] == name;
      (name[..d], name[d..])
    else (name, [])
  }

  /**
   * The `splitext` rules: the extension is empty or is a '.' followed by no other '.',
   * and it is non-empty exactly when some '.' of the name has a non-dot before it.
   */
  lemma SplitExtSpec(name: string)
    ensures var (stem, ext) := SplitExt(name);
      && stem + ext == name
      && (ext != [] ==> ext[0] == '.' && forall j :: 0 < j < |ext| ==> ext[j] != '.')
      && (ext != [] <==> exists i, j :: 0 <= j < i < |name| && name[i] == '.' && name[j] != '.')
  {
    var d := LastDot(name);
    if d >= 0 && !AllDots(name[..d]) {
      var j :| 0 <= j < d && name[..d][j] != '.';
      assert name[j] != '.';
    } else {
      forall i, j | 0 <= j < i < |name| && name[i] == '.' ensures name[j] == '.' {
        assert i <= d;
        assert name[..d][j] == name[j];
      }
    }
  }

  function Ext(name: string): string
  {
    SplitExt(name).1
  }

  /** Lower-casing a name does not move its dots, so it lower-cases its extension. */
  lemma {:induction false} LowerLastDot(s: string)
    ensures LastDot(Lower(s)) == LastDot(s)
  {
    if s != [] {
      assert Lower(s)[..|s| - 1] == Lower(s[..|s| - 1]);
      LowerLastDot(s[..|s| - 1]);
    }
  }

  lemma ExtOfLower(name: string)
    ensures Ext(Lower(name)) == Lower(Ext(name))
  {
    LowerLastDot(name);
    var d := LastDot(name);
    if d >= 0 {
      assert Lower(name)[..d] == Lower(name[..d]);
      assert AllDots(Lower(name)[..d]) == AllDots(name[..d]);
      assert Lower(name)[d..] == Lower(name[d..]);
    }
  }

  /** Names that agree up to letter case have extensions that agree up to case. */
  lemma ExtUpToCase(a: string, b: string)
    requires Lower(a) == Lower(b)
    ensures Lower(Ext(a)) == Lower(Ext(b))
  {
    ExtOfLower(a);
    ExtOfLower(b);
  }

  function DigitChar(d: nat): char
    requires d < 10
  {
    ('0' as int + d) as char
  }

  predicate AllDigits(s: string)
  {
    forall i :: 0 <= i < |s| ==> '0' <= s[i] <= '9'
  }

  /** `str(n)` for a natural number. */
  function NatToString(n: nat): (s: string)
    ensures |s| >= 1 && AllDigits(s)
  {
    if n < 10 then [DigitChar(n)] else NatToString(n / 10) + [DigitChar(n % 10)]
  }

  /** Decimal value of a string of digits: the inverse of NatToString. */
  function ParseNat(s: string): nat
    requires AllDigits(s)
  {
    if s == [] then 0 else ParseNat(s[..|s| - 1]) * 10 + (s[|s| - 1] as int - '0' as int)
  }

  lemma {:induction false} ParseNatToString(n: nat)
    ensures ParseNat(NatToString(n)) == n
  {
    if n >= 10 {
      var s := NatToString(n);
      assert s[..|s| - 1] == NatToString(n / 10);
      ParseNatToString(n / 10);
    }
  }

  /** Distinct counters are spelled differently. */
  lemma NatToStringInjective(a: nat, b: nat)
    requires NatToString(a) == NatToString(b)
    ensures a == b
  {
    ParseNatToString(a);
    ParseNatToString(b);
  }
}
