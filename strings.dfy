/**
  The string operations infest.py relies on, with Python's meaning:
  `sub in s`, `s.endswith(suffix)`, `os.path.basename`, `os.path.join`,
  `str(n)` for a natural number and `n * '---'`.
 */
module Strings {

  /** `sub` occurs in `s` starting at position `i`. */
  predicate OccursAt(s: string, sub: string, i: int)
  {
    0 <= i && i + |sub| <= |s| && forall k | 0 <= k < |sub| :: s[i + k] == sub[k]
  }

  /** Python's `s.startswith(prefix)`. */
  predicate StartsWith(s: string, prefix: string)
  {
    |prefix| <= |s| && s[..|prefix|] == prefix
  }

  /** Python's `s.endswith(suffix)`. */
  predicate EndsWith(s: string, suffix: string)
  {
    |suffix| <= |s| && s[|s| - |suffix|..] == suffix
  }

  /** Python's `sub in s`: `sub` occurs in `s` at some position. */
  predicate Contains(s: string, sub: string)
  {
    exists i | 0 <= i <= |s| :: OccursAt(s, sub, i)
  }

  /** A string contains whatever its middle part contains. */
  lemma ContainsInner(a: string, b: string, c: string, sub: string)
    requires Contains(b, sub)
    ensures Contains(a + b + c, sub)
  {
    var i :| 0 <= i <= |b| && OccursAt(b, sub, i);
    var s := a + b + c;
    forall k | 0 <= k < |sub|
      ensures s[|a| + i + k] == sub[k]
    {
      assert s[|a| + i + k] == b[i + k];
    }
    assert OccursAt(s, sub, |a| + i);
  }

  predicate IsDigit(c: char)
  {
    '0' <= c <= '9'
  }

  function Digit(d: nat): (c: char)
    requires d < 10
    ensures IsDigit(c)
  {
    (48 + d) as char
  }

  /** Python's `str(n)` for a natural number: its decimal digits, no leading zero. */
  function Decimal(n: nat): (s: string)
    ensures |s| >= 1
    ensures n >= 10 <==> |s| >= 2
    decreases n
  {
    if n < 10 then [Digit(n)] else Decimal(n / 10) + [Digit(n % 10)]
  }

  /** `str(n)` is made of digits only. */
  lemma {:induction false} DecimalDigits(n: nat)
    ensures forall i | 0 <= i < |Decimal(n)| :: IsDigit(Decimal(n)[i])
    decreases n
  {
    if n >= 10 {
      DecimalDigits(n / 10);
      var s := Decimal(n);
      assert s == Decimal(n / 10) + [Digit(n % 10)];
      forall i | 0 <= i < |s|
        ensures IsDigit(s[i])
      {
        if i < |s| - 1 {
          assert s[i] == Decimal(n / 10)[i];
        }
      }
    }
  }

  /** Different numbers print differently. */
  lemma {:induction false} DecimalInjective(a: nat, b: nat)
    requires Decimal(a) == Decimal(b)
    ensures a == b
    decreases a
  {
    if a >= 10 && b >= 10 {
      var sa, sb := Decimal(a), Decimal(b);
      assert sa[|sa| - 1] == Digit(a % 10) && sb[|sb| - 1] == Digit(b % 10);
      assert Decimal(a / 10) == sa[..|sa| - 1] == sb[..|sb| - 1] == Decimal(b / 10);
      DecimalInjective(a / 10, b / 10);
    }
  }

  /** Where the last component of `p` begins: just after its last '/', or 0. */
  function BaseStart(p: string): (k: nat)
    ensures k <= |p|
  {
    if p == [] || p[|p| - 1] == '/' then |p| else BaseStart(p[..|p| - 1])
  }

  /** Python's `os.path.basename` on POSIX: whatever follows the last '/'. */
  function Basename(p: string): (b: string)
  {
    p[BaseStart(p)..]
  }

  /** The base name is a '/'-free suffix of the path, preceded by a '/' unless it is the whole path. */
  lemma {:induction false} BasenameLast(p: string)
    ensures EndsWith(p, Basename(p))
    ensures '/' !in Basename(p)
    ensures |Basename(p)| < |p| ==> p[|p| - |Basename(p)| - 1] == '/'
  {
    BaseStartLast(p);
    var k := BaseStart(p);
    assert forall i | 0 <= i < |p[k..]| :: p[k..][i] == p[k + i];
  }

  lemma {:induction false} BaseStartLast(p: string)
    ensures BaseStart(p) > 0 ==> p[BaseStart(p) - 1] == '/'
    ensures forall i | BaseStart(p) <= i < |p| :: p[i] != '/'
  {
    if p != [] && p[|p| - 1] != '/' {
      var q := p[..|p| - 1];
      BaseStartLast(q);
      assert forall i | 0 <= i < |q| :: q[i] == p[i];
    }
  }

  /** Python's `os.path.join(a, b)` on POSIX, for two components. */
  function Join(a: string, b: string): string
  {
    if StartsWith(b, "/") then b
    else if a == [] || a[|a| - 1] == '/' then a + b
    else a + "/" + b
  }

  /** The joined path ends with its second component. */
  lemma JoinEnds(a: string, b: string)
    ensures EndsWith(Join(a, b), b)
  {
    var p := Join(a, b);
    assert p[|p| - |b|..] == b;
  }

  /** `len(p.split('/'))`: one more than the number of separators. */
  function Components(p: string): (n: nat)
    ensures n >= 1
  {
    if p == [] then 1 else Components(p[..|p| - 1]) + (if p[|p| - 1] == '/' then 1 else 0)
  }

  /** Python's `n * '---'`. */
  function Dashes(n: nat): (s: string)
    ensures |s| == 3 * n
  {
    if n == 0 then [] else "---" + Dashes(n - 1)
  }

  /** `n * '---'` is dashes only. */
  lemma {:induction false} DashesOnly(n: nat)
    ensures forall i | 0 <= i < |Dashes(n)| :: Dashes(n)[i] == '-'
  {
    if n > 0 {
      DashesOnly(n - 1);
      var s := Dashes(n);
      forall i | 0 <= i < |s|
        ensures s[i] == '-'
      {
        if i >= 3 {
          assert s[i] == Dashes(n - 1)[i - 3];
        }
      }
    }
  }
}
