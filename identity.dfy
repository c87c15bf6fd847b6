/**
 * How a dependency's registry key is derived: the hex digest of the string
 * "{module}.{qualname}:{firstlineno}:{filename}" built from the callable's
 * defining location. Both registry variants use the same derivation.
 */
module Identity {

  /** Where a callable was defined, as Python's introspection reports it. */
  datatype Site = Site(moduleName: string, qualname: string, firstLine: nat, filename: string)

  /** A registrable callable: its defining site and what it computes. */
  datatype Callable<!A, R> = Callable(site: Site, run: A -> R)

  /** A registry key: the hex digest of a preimage string. */
  type Key = string

  function DigitChar(d: nat): (c: char)
    requires d < 10
    ensures '0' <= c <= '9'
  {
    (('0' as int) + d) as char
  }

  function DigitValue(c: char): (d: nat)
    requires '0' <= c <= '9'
    ensures d < 10
  {
    (c as int) - ('0' as int)
  }

  predicate IsDigits(s: string)
  {
    forall i :: 0 <= i < |s| ==> '0' <= s[i] <= '9'
  }

  /** Python's decimal formatting of a non-negative int inside an f-string. */
  function Decimal(n: nat): (s: string)
    ensures |s| >= 1 && IsDigits(s)
    ensures s[0] == '0' <==> n == 0
    ensures n == 0 ==> s == "0"
    decreases n
  {
    if n < 10 then [DigitChar(n)] else Decimal(n / 10) + [DigitChar(n % 10)]
  }

  /** The number a string of decimal digits denotes. */
  function DecimalValue(s: string): (v: nat)
    requires IsDigits(s)
    decreases |s|
  {
    if s == [] then 0 else DecimalValue(s[..|s| - 1]) * 10 + DigitValue(s[|s| - 1])
  }

  /** The line number can be read back from its decimal form. */
  lemma {:induction false} DecimalRoundTrip(n: nat)
    ensures DecimalValue(Decimal(n)) == n
    decreases n
  {
    var s := Decimal(n);
    if n < 10 {
      assert s[..|s| - 1] == [];
    } else {
      DecimalRoundTrip(n / 10);
      assert s[..|s| - 1] == Decimal(n / 10);
    }
  }

  /** The string whose digest is the key. */
  function Preimage(s: Site): (p: string)
    ensures |p| == |s.moduleName| + |s.qualname| + |Decimal(s.firstLine)| + |s.filename| + 3
    ensures p[..|s.moduleName|] == s.moduleName && p[|s.moduleName|] == '.'
    ensures p[|p| - |s.filename|..] == s.filename && p[|p| - |s.filename| - 1] == ':'
    ensures p[|s.moduleName| + 1..|p| - |s.filename| - 1] == s.qualname + ":" + Decimal(s.firstLine)
  {
    s.moduleName + "." + s.qualname + ":" + Decimal(s.firstLine) + ":" + s.filename
  }

  /** The key of a callable defined at `s`, under the hash function `digest`. */
  function KeyOf(digest: string -> Key, s: Site): (k: Key)
  {
    digest(Preimage(s))
  }

  /**
   * The preimage does not tell its parts apart: a dot may sit in the module
   * name or in the qualified name, so two distinct sites share one key.
   */
  lemma PreimageNotInjective(digest: string -> Key, a: string, b: string, c: string, line: nat, file: string)
    ensures var s1 := Site(a + "." + b, c, line, file);
            var s2 := Site(a, b + "." + c, line, file);
            s1 != s2 && Preimage(s1) == Preimage(s2) && KeyOf(digest, s1) == KeyOf(digest, s2)
  {
    var s1 := Site(a + "." + b, c, line, file);
    var s2 := Site(a, b + "." + c, line, file);
    assert |s1.moduleName| != |s2.moduleName|;
    var tail := ":" + Decimal(line) + ":" + file;
    calc {
      Preimage(s1);
      a + "." + b + "." + c + tail;
      a + "." + (b + "." + c) + tail;
      Preimage(s2);
    }
  }
}
