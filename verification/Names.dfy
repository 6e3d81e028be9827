/** Decimal suffixes, identifiers and the search for a free name that
    internal/testigogen relies on. */
module Names {
  import opened FiniteSets

  // ---------- identifiers ----------

  predicate IsLetter(c: char) { c == '_' || 'a' <= c <= 'z' || 'A' <= c <= 'Z' }
  predicate IsDigit(c: char) { '0' <= c <= '9' }

  /** ASCII identifiers; `token.IsIdentifier` but for the keywords. */
  predicate IsIdentifier(s: string) {
    s != "" && IsLetter(s[0]) && forall i :: 0 <= i < |s| ==> IsLetter(s[i]) || IsDigit(s[i])
  }

  predicate LowerCase(s: string) {
    forall i :: 0 <= i < |s| ==> 'a' <= s[i] <= 'z'
  }

  const KEYWORDS: set<string> := {
    "break", "case", "chan", "const", "continue", "default", "defer", "else", "fallthrough",
    "for", "func", "go", "goto", "if", "import", "interface", "map", "package", "range",
    "return", "select", "struct", "switch", "type", "var"
  }

  predicate ValidIdentifier(s: string) {
    IsIdentifier(s) && s !in KEYWORDS
  }

  lemma KeywordsAreLowerCase(s: string)
    requires s in KEYWORDS
    ensures LowerCase(s)
  {
  }

  /** A name with a digit or a capital in it is no keyword. */
  lemma NotAKeyword(s: string, i: nat)
    requires i < |s| && !('a' <= s[i] <= 'z')
    ensures s !in KEYWORDS
  {
    if s in KEYWORDS { KeywordsAreLowerCase(s); }
  }

  // ---------- decimal numbers ----------

  function Digit(n: nat): char
    requires n < 10
  {
    '0' + n as char
  }

  function Decimal(n: nat): (s: string)
    ensures s != "" && forall i :: 0 <= i < |s| ==> IsDigit(s[i])
  {
    if n < 10 then [Digit(n)] else Decimal(n / 10) + [Digit(n % 10)]
  }

  lemma {:induction false} DecimalInjective(m: nat, n: nat)
    requires Decimal(m) == Decimal(n)
    ensures m == n
  {
    var s, t := Decimal(m), Decimal(n);
    assert s[|s| - 1] == Digit(m % 10) && t[|t| - 1] == Digit(n % 10);
    assert m % 10 == n % 10;
    if m < 10 || n < 10 {
    } else {
      assert s[..|s| - 1] == Decimal(m / 10) && t[..|t| - 1] == Decimal(n / 10);
      DecimalInjective(m / 10, n / 10);
    }
  }

  /** The number a row of digits stands for. */
  ghost function ReadDigits(s: string): int {
    if s == "" then 0 else 10 * ReadDigits(s[..|s| - 1]) + (s[|s| - 1] as int - '0' as int)
  }

  /** The decimal form reads back, and does not start with a zero. */
  lemma {:induction false} DecimalReads(n: nat)
    ensures ReadDigits(Decimal(n)) == n
    ensures n > 0 ==> Decimal(n)[0] != '0'
    ensures n == 0 ==> Decimal(n) == "0"
  {
    var s := Decimal(n);
    if n < 10 {
      assert s[..0] == "";
    } else {
      DecimalReads(n / 10);
      assert s[..|s| - 1] == Decimal(n / 10);
    }
  }

  // ---------- numbered candidates ----------

  /** preferred, preferred2, preferred3, ... */
  function Candidate(preferred: string, k: nat): string {
    if k < 2 then preferred else preferred + Decimal(k)
  }

  lemma CandidatesDistinct(preferred: string, i: nat, j: nat)
    requires 1 <= i && 1 <= j && Candidate(preferred, i) == Candidate(preferred, j)
    ensures i == j
  {
    if i >= 2 && j >= 2 {
      var n := |preferred|;
      assert (preferred + Decimal(i))[n..] == Decimal(i) && (preferred + Decimal(j))[n..] == Decimal(j);
      DecimalInjective(i, j);
    }
  }

  function Tried(preferred: string, k: nat): set<string> {
    set i | 1 <= i < k :: Candidate(preferred, i)
  }

  lemma {:induction false} TriedSize(preferred: string, k: nat)
    requires k >= 1
    ensures |Tried(preferred, k)| == k - 1
  {
    if k > 1 {
      TriedSize(preferred, k - 1);
      var last := Candidate(preferred, k - 1);
      forall i | 1 <= i < k - 1 ensures Candidate(preferred, i) != last {
        if Candidate(preferred, i) == last { CandidatesDistinct(preferred, i, k - 1); }
      }
      assert Tried(preferred, k) == Tried(preferred, k - 1) + {last};
      assert last !in Tried(preferred, k - 1);
    } else {
      assert Tried(preferred, k) == {};
    }
  }

  /** Pigeonhole: as many candidates as there are used names cannot all be taken. */
  lemma TriedAtMost(preferred: string, k: nat, used: set<string>)
    requires k >= 1 && Tried(preferred, k) <= used
    ensures k - 1 <= |used|
  {
    TriedSize(preferred, k);
    SubsetSize(Tried(preferred, k), used);
  }

  /** The least number from k on whose candidate is free. */
  function FirstFree(preferred: string, used: set<string>, k: nat): (r: nat)
    requires k >= 1 && Tried(preferred, k) <= used
    ensures k <= r && Candidate(preferred, r) !in used
    ensures Tried(preferred, r) <= used
    decreases |used| + 1 - k
  {
    TriedAtMost(preferred, k, used);
    if Candidate(preferred, k) !in used then k
    else
      assert Tried(preferred, k + 1) == Tried(preferred, k) + {Candidate(preferred, k)};
      TriedAtMost(preferred, k + 1, used);
      FirstFree(preferred, used, k + 1)
  }

  /** One failed try: the search goes on from the next candidate. */
  lemma CandidateTaken(preferred: string, k: nat, used: set<string>)
    requires k >= 1 && Tried(preferred, k) <= used && Candidate(preferred, k) in used
    ensures Tried(preferred, k + 1) <= used && k <= |used|
    ensures FirstFree(preferred, used, k + 1) == FirstFree(preferred, used, k)
  {
    assert Tried(preferred, k + 1) == Tried(preferred, k) + {Candidate(preferred, k)};
    TriedAtMost(preferred, k + 1, used);
  }

  lemma CandidateIsIdentifier(preferred: string, k: nat)
    requires IsIdentifier(preferred)
    ensures IsIdentifier(Candidate(preferred, k))
  {
  }

  // ---------- growing a name ----------

  ghost function AtLeastAsLong(used: set<string>, n: nat): set<string> {
    set u | u in used && |u| >= n
  }

  /** Appends the suffix until the name is free. */
  function Grow(name: string, suffix: string, used: set<string>): (r: string)
    requires suffix != ""
    ensures r !in used
    ensures r == name || (name in used && |r| > |name|)
    decreases AtLeastAsLong(used, |name|)
  {
    if name !in used then name
    else
      assert name in AtLeastAsLong(used, |name|);
      Grow(name + suffix, suffix, used)
  }

  /** A grown name is the name and a number of suffixes, and every shorter one was taken. */
  lemma {:induction false} GrowIsLeast(name: string, suffix: string, used: set<string>) returns (k: nat)
    requires suffix != ""
    ensures Grow(name, suffix, used) == Repeated(name, suffix, k)
    ensures forall i :: 0 <= i < k ==> Repeated(name, suffix, i) in used
    decreases AtLeastAsLong(used, |name|)
  {
    if name !in used {
      k := 0;
    } else {
      assert name in AtLeastAsLong(used, |name|);
      var n := GrowIsLeast(name + suffix, suffix, used);
      k := n + 1;
      forall i | 0 <= i < k ensures Repeated(name, suffix, i) in used {
        if i > 0 { RepeatedShift(name, suffix, i - 1); }
      }
      RepeatedShift(name, suffix, n);
    }
  }

  function Repeated(name: string, suffix: string, k: nat): string {
    if k == 0 then name else Repeated(name, suffix, k - 1) + suffix
  }

  lemma {:induction false} RepeatedShift(name: string, suffix: string, k: nat)
    ensures Repeated(name + suffix, suffix, k) == Repeated(name, suffix, k + 1)
  {
    if k == 0 {
    } else {
      RepeatedShift(name, suffix, k - 1);
    }
  }

  /** A suffix with a capital turns identifiers into identifiers. */
  lemma {:induction false} GrowIsValid(name: string, suffix: string, used: set<string>)
    requires ValidIdentifier(name) && suffix != "" && 'A' <= suffix[0] <= 'Z'
    requires forall i :: 0 <= i < |suffix| ==> IsLetter(suffix[i])
    ensures ValidIdentifier(Grow(name, suffix, used))
    decreases AtLeastAsLong(used, |name|)
  {
    if name !in used {
    } else {
      assert name in AtLeastAsLong(used, |name|);
      NotAKeyword(name + suffix, |name|);
      GrowIsValid(name + suffix, suffix, used);
    }
  }

  method GrowName(name: string, suffix: string, used: set<string>) returns (r: string)
    requires suffix != ""
    ensures r == Grow(name, suffix, used)
  {
    r := name;
    while r in used
      invariant Grow(r, suffix, used) == Grow(name, suffix, used)
      decreases AtLeastAsLong(used, |r|)
    {
      assert r in AtLeastAsLong(used, |r|);
      r := r + suffix;
    }
  }
}
