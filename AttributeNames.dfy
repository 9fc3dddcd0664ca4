/**
 * Naming of newly inserted custom attributes: "New attribute", then
 * "New attribute 1", "New attribute 2", ... until a name is found that is
 * not yet a key of the working attribute map.
 */
module AttributeNames {

  const BaseName: string := "New attribute"

  function Digit(d: nat): (c: char)
    requires d < 10
    ensures '0' <= c <= '9' && c as int - '0' as int == d
  {
    (d + '0' as int) as char
  }

  /** The decimal rendering of a number, as formatting an int argument gives it. */
  function DecimalString(n: nat): (s: string)
    ensures 1 <= |s|
    ensures 10 <= n ==> 2 <= |s|
    ensures forall i :: 0 <= i < |s| ==> '0' <= s[i] <= '9'
  {
    if n < 10 then [Digit(n)] else DecimalString(n / 10) + [Digit(n % 10)]
  }

  /** Reads a string of decimal digits back as a number. */
  function ParseDecimal(s: string): int
  {
    if s == [] then 0
    else 10 * ParseDecimal(s[..|s| - 1]) + (s[|s| - 1] as int - '0' as int)
  }

  lemma {:induction false} ParseDecimalString(n: nat)
    ensures ParseDecimal(DecimalString(n)) == n
  {
    if n >= 10 {
      var s := DecimalString(n);
      assert s[..|s| - 1] == DecimalString(n / 10);
      ParseDecimalString(n / 10);
    }
  }

  lemma DecimalStringInjective(a: nat, b: nat)
    requires DecimalString(a) == DecimalString(b)
    ensures a == b
  {
    ParseDecimalString(a);
    ParseDecimalString(b);
  }

  /** The name tried by the source on its k-th attempt (attempt 0 is the bare name). */
  function CandidateName(k: nat): (name: string)
    ensures |BaseName| <= |name| && name[..|BaseName|] == BaseName
  {
    if k == 0 then BaseName else BaseName + " " + DecimalString(k)
  }

  lemma CandidateNameInjective(j: nat, k: nat)
    requires CandidateName(j) == CandidateName(k)
    ensures j == k
  {
    if j != 0 && k != 0 {
      var n := |BaseName| + 1;
      assert CandidateName(j)[n..] == DecimalString(j);
      assert CandidateName(k)[n..] == DecimalString(k);
      DecimalStringInjective(j, k);
    }
  }

  ghost function Tried(n: nat): set<string> {
    set k | 0 <= k < n :: CandidateName(k)
  }

  /** The first n candidate names are pairwise different. */
  lemma {:induction false} TriedCount(n: nat)
    ensures |Tried(n)| == n
  {
    if n > 0 {
      TriedCount(n - 1);
      var last := CandidateName(n - 1);
      forall x ensures x in Tried(n) <==> x in Tried(n - 1) || x == last {
        if x in Tried(n) {
          var k :| 0 <= k < n && x == CandidateName(k);
        }
      }
      assert Tried(n) == Tried(n - 1) + {last};
      if last in Tried(n - 1) {
        var k :| 0 <= k < n - 1 && CandidateName(k) == last;
        CandidateNameInjective(k, n - 1);
      }
    }
  }

  /** `name` is the first candidate that is not among `keys`. */
  ghost predicate FirstFreeName(name: string, keys: set<string>) {
    exists k: nat :: name == CandidateName(k) && name !in keys
      && forall j :: 0 <= j < k ==> CandidateName(j) in keys
  }

  lemma CandidateTried(j: nat, k: nat)
    requires j < k
    ensures CandidateName(j) in Tried(k)
  {
  }

  /** Once the first k candidates are taken (and nothing else), the next one is chosen. */
  lemma FirstFreeAfterTried(name: string, k: nat)
    requires FirstFreeName(name, Tried(k))
    ensures name == CandidateName(k)
  {
    var m: nat :| name == CandidateName(m) && name !in Tried(k)
      && forall j :: 0 <= j < m ==> CandidateName(j) in Tried(k);
    if m < k {
      CandidateTried(m, k);
      assert false;
    } else if m > k {
      assert CandidateName(k) in Tried(k);
      var i :| 0 <= i < k && CandidateName(i) == CandidateName(k);
      CandidateNameInjective(i, k);
    }
  }

  /**
   * The search loop of insertAttribute. It terminates because the names it
   * tries are pairwise different, so at most |keys| of them can be taken.
   * The result is the first candidate that is not a key.
   */
  method FreshAttributeName(keys: set<string>) returns (name: string, attempt: nat)
    ensures name == CandidateName(attempt) && name !in keys
    ensures forall j :: 0 <= j < attempt ==> CandidateName(j) in keys
    ensures attempt <= |keys|
  {
    name := BaseName;
    var i := 1;
    while name in keys
      invariant 1 <= i <= |keys| + 1
      invariant name == CandidateName(i - 1)
      invariant forall j :: 0 <= j < i - 1 ==> CandidateName(j) in keys
      decreases |keys| + 1 - i
    {
      forall x | x in Tried(i) ensures x in keys {
        var k :| 0 <= k < i && x == CandidateName(k);
      }
      TriedCount(i);
      assert keys == Tried(i) + (keys - Tried(i));
      name := BaseName + " " + DecimalString(i);
      i := i + 1;
    }
    attempt := i - 1;
  }
}
