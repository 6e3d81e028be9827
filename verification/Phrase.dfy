/** The seed-phrase codec of random/phrase.go. Seeds are 64-bit and unsigned, so
    masking by a power of two less one is a remainder and shifting is division. */
module Phrase {
  import opened Options

  const PHRASE_BASE: nat := 64
  const PHRASE_LEN: nat := 4
  const PHRASE_SPACE: nat := 0x100_0000

  const ROW0 := ["amber", "anchor", "apple", "arrow", "aspen", "basil", "beacon", "birch"]
  const ROW1 := ["bison", "bloom", "brook", "cedar", "clay", "cliff", "cloud", "clover"]
  const ROW2 := ["comet", "coral", "cove", "crane", "crest", "dawn", "delta", "dune"]
  const ROW3 := ["ember", "fern", "flint", "fox", "frost", "glade", "grove", "harbor"]
  const ROW4 := ["hazel", "heron", "ivy", "jade", "lark", "leaf", "lily", "lotus"]
  const ROW5 := ["maple", "marsh", "meadow", "mist", "moss", "oak", "opal", "otter"]
  const ROW6 := ["pebble", "pine", "quartz", "raven", "reed", "ridge", "river", "robin"]
  const ROW7 := ["sage", "shell", "slate", "spruce", "stone", "storm", "tide", "willow"]

  const WORDS: seq<string> := ROW0 + ROW1 + ROW2 + ROW3 + ROW4 + ROW5 + ROW6 + ROW7

  // ---------- the words are distinct and hyphen-free ----------

  function Letter(w: string, k: nat): nat {
    if k < |w| then w[k] as nat else 0
  }

  /** The first four letters of a word as a number. */
  function Code(w: string): nat {
    Letter(w, 0) * 0x1_00_00_00 + Letter(w, 1) * 0x1_00_00 + Letter(w, 2) * 0x1_00 + Letter(w, 3)
  }

  /** Hyphen-free words in strictly alphabetical order. */
  ghost predicate Alphabetical(ws: seq<string>) {
    && (forall i, j :: 0 <= i < j < |ws| ==> Code(ws[i]) < Code(ws[j]))
    && RowHyphenFree(ws)
  }

  /** Eight such words, the first after lo. */
  predicate Row(lo: string, w: seq<string>) {
    && |w| == 8
    && Code(lo) < Code(w[0]) < Code(w[1]) < Code(w[2]) < Code(w[3]) < Code(w[4]) < Code(w[5]) < Code(w[6]) < Code(w[7])
    && HyphenFree(w[0]) && HyphenFree(w[1]) && HyphenFree(w[2]) && HyphenFree(w[3])
    && HyphenFree(w[4]) && HyphenFree(w[5]) && HyphenFree(w[6]) && HyphenFree(w[7])
  }

  lemma Row0()
    ensures Row("", ROW0)
  {
  }

  lemma Row1()
    ensures Row("birch", ROW1)
  {
  }

  lemma Row2()
    ensures Row("clover", ROW2)
  {
  }

  lemma Row3()
    ensures Row("dune", ROW3)
  {
  }

  lemma Row4()
    ensures Row("harbor", ROW4)
  {
  }

  lemma Row5()
    ensures Row("lotus", ROW5)
  {
  }

  lemma Row6()
    ensures Row("otter", ROW6)
  {
  }

  lemma Row7()
    ensures Row("robin", ROW7)
  {
  }

  lemma RowIsAlphabetical(lo: string, w: seq<string>)
    requires Row(lo, w)
    ensures Alphabetical(w)
  {
  }

  lemma Concatenated(a: seq<string>, b: seq<string>)
    requires Alphabetical(a) && Alphabetical(b) && a != [] && b != [] && Code(a[|a| - 1]) < Code(b[0])
    ensures Alphabetical(a + b)
  {
    var r := a + b;
    forall i, j | 0 <= i < j < |r| ensures Code(r[i]) < Code(r[j]) {
      if i < |a| <= j {
        assert Code(a[i]) <= Code(a[|a| - 1]) && Code(b[0]) <= Code(b[j - |a|]);
      }
    }
    forall i | 0 <= i < |r| ensures HyphenFree(r[i]) {
      if i < |a| { assert HyphenFree(a[i]); } else { assert HyphenFree(b[i - |a|]); }
    }
  }

  lemma AddRow(ws: seq<string>, w: seq<string>)
    requires ws != [] && Alphabetical(ws) && Row(ws[|ws| - 1], w)
    ensures Alphabetical(ws + w)
  {
    RowIsAlphabetical(ws[|ws| - 1], w);
    Concatenated(ws, w);
  }

  lemma EightRows(r0: seq<string>, r1: seq<string>, r2: seq<string>, r3: seq<string>,
                  r4: seq<string>, r5: seq<string>, r6: seq<string>, r7: seq<string>)
    requires Row("", r0) && Row(r0[7], r1) && Row(r1[7], r2) && Row(r2[7], r3)
    requires Row(r3[7], r4) && Row(r4[7], r5) && Row(r5[7], r6) && Row(r6[7], r7)
    ensures Alphabetical(r0 + r1 + r2 + r3 + r4 + r5 + r6 + r7)
    ensures |r0 + r1 + r2 + r3 + r4 + r5 + r6 + r7| == 64
  {
    RowIsAlphabetical("", r0);
    AddRow(r0, r1);
    AddRow(r0 + r1, r2);
    AddRow(r0 + r1 + r2, r3);
    AddRow(r0 + r1 + r2 + r3, r4);
    AddRow(r0 + r1 + r2 + r3 + r4, r5);
    AddRow(r0 + r1 + r2 + r3 + r4 + r5, r6);
    AddRow(r0 + r1 + r2 + r3 + r4 + r5 + r6, r7);
  }

  /** What the codec needs of its words: 64 distinct ones without a hyphen. */
  ghost predicate Vocabulary(words: seq<string>) {
    && |words| == PHRASE_BASE
    && (forall i, j :: 0 <= i < j < |words| ==> words[i] != words[j])
    && RowHyphenFree(words)
  }

  lemma PhraseWordsAreAVocabulary()
    ensures Vocabulary(WORDS)
  {
    Row0(); Row1(); Row2(); Row3(); Row4(); Row5(); Row6(); Row7();
    EightRows(ROW0, ROW1, ROW2, ROW3, ROW4, ROW5, ROW6, ROW7);
    AlphabeticalIsDistinct(WORDS);
  }

  lemma AlphabeticalIsDistinct(ws: seq<string>)
    requires Alphabetical(ws)
    ensures forall i, j :: 0 <= i < j < |ws| ==> ws[i] != ws[j]
  {
    forall i, j | 0 <= i < j < |ws| ensures ws[i] != ws[j] { assert Code(ws[i]) < Code(ws[j]); }
  }

  predicate HyphenFree(w: string) {
    forall k :: 0 <= k < |w| ==> w[k] != '-'
  }

  predicate RowHyphenFree(w: seq<string>) {
    forall i :: 0 <= i < |w| ==> HyphenFree(w[i])
  }

  // ---------- joining and splitting ----------

  function Join(parts: seq<string>): string {
    if parts == [] then "" else if |parts| == 1 then parts[0] else parts[0] + "-" + Join(parts[1..])
  }

  /** `strings.Split` on a hyphen: always at least one part. */
  function Split(p: string): (parts: seq<string>)
    ensures parts != []
  {
    if p == "" then [""]
    else
      var rest := Split(p[1..]);
      if p[0] == '-' then [""] + rest else [[p[0]] + rest[0]] + rest[1..]
  }

  lemma {:induction false} SplitPrefix(w: string, rest: string)
    requires HyphenFree(w)
    ensures Split(w) == [w]
    ensures Split(w + "-" + rest) == [w] + Split(rest)
  {
    if w == "" {
      assert w + "-" + rest == ['-'] + rest;
      assert (['-'] + rest)[1..] == rest;
    } else {
      SplitPrefix(w[1..], rest);
      assert (w + "-" + rest)[1..] == w[1..] + "-" + rest;
      assert [w[0]] + w[1..] == w;
    }
  }

  lemma {:induction false} SplitInvertsJoin(parts: seq<string>)
    requires parts != [] && RowHyphenFree(parts)
    ensures Split(Join(parts)) == parts
  {
    if |parts| == 1 {
      SplitPrefix(parts[0], "");
    } else {
      SplitInvertsJoin(parts[1..]);
      SplitPrefix(parts[0], Join(parts[1..]));
    }
  }

  lemma {:induction false} JoinInvertsSplit(p: string)
    ensures Join(Split(p)) == p
  {
    if p == "" {
    } else {
      JoinInvertsSplit(p[1..]);
      var rest := Split(p[1..]);
      if p[0] == '-' {
        assert Join([""] + rest) == "" + "-" + Join(rest) by { assert ([""] + rest)[1..] == rest; }
      } else {
        var parts := [[p[0]] + rest[0]] + rest[1..];
        assert parts[1..] == rest[1..];
        assert Join(parts) == [p[0]] + Join(rest);
      }
    }
  }

  // ---------- the codec ----------

  function IndexOf(w: string, ws: seq<string>): Option<nat> {
    if ws == [] then None
    else if ws[|ws| - 1] == w then Some(|ws| - 1)
    else IndexOf(w, ws[..|ws| - 1])
  }

  lemma {:induction false} IndexOfFinds(w: string, ws: seq<string>)
    ensures match IndexOf(w, ws)
            case None => w !in ws
            case Some(i) => i < |ws| && ws[i] == w
  {
    if ws == [] {
    } else {
      IndexOfFinds(w, ws[..|ws| - 1]);
      assert ws == ws[..|ws| - 1] + [ws[|ws| - 1]];
    }
  }

  /** The n low base-64 digits of s as words, lowest first. */
  function Digits(words: seq<string>, s: nat, n: nat): (r: seq<string>)
    requires |words| == PHRASE_BASE
    ensures |r| == n
  {
    if n == 0 then [] else [words[s % PHRASE_BASE]] + Digits(words, s / PHRASE_BASE, n - 1)
  }

  /** The value of a list of words read as base-64 digits, lowest first. */
  function Value(words: seq<string>, parts: seq<string>): Option<nat> {
    if parts == [] then Some(0)
    else match (Value(words, parts[1..]), IndexOf(parts[0], words))
      case (Some(s), Some(i)) => Some(s * PHRASE_BASE + i)
      case _ => None
  }

  function Encode(words: seq<string>, s: nat): string
    requires |words| == PHRASE_BASE
  {
    Join(Digits(words, s % PHRASE_SPACE, PHRASE_LEN))
  }

  function Parse(words: seq<string>, p: string): Option<nat> {
    var parts := Split(p);
    if |parts| != PHRASE_LEN then None else Value(words, parts)
  }

  function Power(n: nat): nat {
    if n == 0 then 1 else PHRASE_BASE * Power(n - 1)
  }

  lemma DigitSplits(s: nat, i: nat)
    requires i < PHRASE_BASE
    ensures (s * PHRASE_BASE + i) % PHRASE_BASE == i && (s * PHRASE_BASE + i) / PHRASE_BASE == s
  {
  }

  lemma IndexOfWord(words: seq<string>, i: nat)
    requires Vocabulary(words) && i < |words|
    ensures IndexOf(words[i], words) == Some(i)
  {
    IndexOfFinds(words[i], words);
  }

  lemma ValueCons(words: seq<string>, w: string, rest: seq<string>)
    requires IndexOf(w, words).Some? && Value(words, rest).Some?
    ensures Value(words, [w] + rest) == Some(Value(words, rest).value * PHRASE_BASE + IndexOf(w, words).value)
  {
    assert ([w] + rest)[1..] == rest;
  }

  lemma PowerDivides(s: nat, n: nat)
    requires n > 0 && s < Power(n)
    ensures s / PHRASE_BASE < Power(n - 1) && (s / PHRASE_BASE) * PHRASE_BASE + s % PHRASE_BASE == s
  {
  }

  lemma {:induction false} ValueOfDigits(words: seq<string>, s: nat, n: nat)
    requires Vocabulary(words) && s < Power(n)
    ensures Value(words, Digits(words, s, n)) == Some(s)
  {
    if n == 0 {
    } else {
      PowerDivides(s, n);
      ValueOfDigits(words, s / PHRASE_BASE, n - 1);
      IndexOfWord(words, s % PHRASE_BASE);
      ValueCons(words, words[s % PHRASE_BASE], Digits(words, s / PHRASE_BASE, n - 1));
    }
  }

  lemma {:induction false} DigitsOfValue(words: seq<string>, parts: seq<string>)
    requires Vocabulary(words) && Value(words, parts).Some?
    ensures Value(words, parts).value < Power(|parts|)
    ensures Digits(words, Value(words, parts).value, |parts|) == parts
  {
    if parts == [] {
    } else {
      DigitsOfValue(words, parts[1..]);
      IndexOfFinds(parts[0], words);
      DigitSplits(Value(words, parts[1..]).value, IndexOf(parts[0], words).value);
    }
  }

  lemma SpaceIsPower()
    ensures Power(PHRASE_LEN) == PHRASE_SPACE
  {
    assert Power(1) == 64 && Power(2) == 4096 && Power(3) == 262144;
  }

  lemma {:induction false} DigitsAreHyphenFree(words: seq<string>, s: nat, n: nat)
    requires Vocabulary(words)
    ensures RowHyphenFree(Digits(words, s, n))
  {
    if n == 0 {
    } else {
      DigitsAreHyphenFree(words, s / PHRASE_BASE, n - 1);
    }
  }

  lemma Shifted(low: nat, m: nat)
    ensures (low + 64 * m) / 64 == low / 64 + m && (low + 64 * m) % 64 == low % 64
  {
  }

  /** The four lowest base-64 digits are the same for a number and its low 24 bits. */
  lemma LowDigits(s: nat)
    ensures var low := s % PHRASE_SPACE;
      && low % 64 == s % 64 && low / 64 % 64 == s / 64 % 64
      && low / 64 / 64 % 64 == s / 64 / 64 % 64 && low / 64 / 64 / 64 % 64 == s / 64 / 64 / 64 % 64
  {
    var low, q := s % PHRASE_SPACE, s / PHRASE_SPACE;
    assert s == low + 64 * (262144 * q);
    Shifted(low, 262144 * q);
    Shifted(low / 64, 4096 * q);
    Shifted(low / 64 / 64, 64 * q);
    Shifted(low / 64 / 64 / 64, q);
  }

  /** A phrase is the words of the four lowest base-64 digits, lowest first. */
  lemma EncodeIsFourWords(words: seq<string>, s: nat)
    requires |words| == PHRASE_BASE
    ensures Encode(words, s) ==
      words[s % 64] + "-" + (words[s / 64 % 64] + "-" + (words[s / 64 / 64 % 64] + "-" + words[s / 64 / 64 / 64 % 64]))
  {
    LowDigits(s);
    var low := s % PHRASE_SPACE;
    var a, b, c := low / 64, low / 64 / 64, low / 64 / 64 / 64;
    assert Digits(words, c, 1) == [words[c % 64]] + Digits(words, c / 64, 0);
    assert Digits(words, b, 2) == [words[b % 64]] + Digits(words, c, 1);
    assert Digits(words, a, 3) == [words[a % 64]] + Digits(words, b, 2);
    assert Digits(words, low, 4) == [words[low % 64]] + Digits(words, a, 3);
    JoinFour(words[low % 64], words[a % 64], words[b % 64], words[c % 64]);
  }

  lemma JoinFour(a: string, b: string, c: string, d: string)
    ensures Join([a] + ([b] + ([c] + ([d] + [])))) == a + "-" + (b + "-" + (c + "-" + d))
  {
    assert [a] + ([b] + ([c] + ([d] + []))) == [a, b, c, d];
    assert [a, b, c, d][1..] == [b, c, d] && [b, c, d][1..] == [c, d] && [c, d][1..] == [d];
    assert Join([c, d]) == c + "-" + d && Join([b, c, d]) == b + "-" + Join([c, d]);
    assert Join([a, b, c, d]) == a + "-" + Join([b, c, d]);
    assert a + "-" + (b + "-" + (c + "-" + d)) == a + "-" + Join([b, c, d]);
  }

  /** Parsing an encoded seed gives back its low 24 bits. */
  lemma ParseInvertsEncode(words: seq<string>, s: nat)
    requires Vocabulary(words)
    ensures Parse(words, Encode(words, s)) == Some(s % PHRASE_SPACE)
  {
    SpaceIsPower();
    DigitsAreHyphenFree(words, s % PHRASE_SPACE, PHRASE_LEN);
    SplitInvertsJoin(Digits(words, s % PHRASE_SPACE, PHRASE_LEN));
    ValueOfDigits(words, s % PHRASE_SPACE, PHRASE_LEN);
  }

  /** Encoding what a phrase parses to gives back the phrase. */
  lemma EncodeInvertsParse(words: seq<string>, p: string)
    requires Vocabulary(words) && Parse(words, p).Some?
    ensures Parse(words, p).value < PHRASE_SPACE && Encode(words, Parse(words, p).value) == p
  {
    SpaceIsPower();
    DigitsOfValue(words, Split(p));
    JoinInvertsSplit(p);
  }

  ghost predicate AllIn(parts: seq<string>, words: seq<string>) {
    forall k :: 0 <= k < |parts| ==> parts[k] in words
  }

  /** A list of words is accepted exactly when all of them are known. */
  lemma {:induction false} AcceptedExactly(words: seq<string>, parts: seq<string>)
    ensures Value(words, parts).Some? <==> AllIn(parts, words)
  {
    if parts == [] {
    } else {
      AcceptedExactly(words, parts[1..]);
      IndexOfFinds(parts[0], words);
      assert AllIn(parts, words) <==> parts[0] in words && AllIn(parts[1..], words);
    }
  }

  /** `phraseIndex`. */
  method BuildIndex(words: seq<string>) returns (m: map<string, nat>)
    ensures forall w :: IndexOf(w, words) == if w in m then Some(m[w]) else None
  {
    m := map[];
    for i := 0 to |words|
      invariant forall w :: IndexOf(w, words[..i]) == if w in m then Some(m[w]) else None
    {
      assert words[..i + 1][..i] == words[..i];
      m := m[words[i] := i];
    }
    assert words[..|words|] == words;
  }

  method EncodeWith(words: seq<string>, seed: nat) returns (p: string)
    requires |words| == PHRASE_BASE
    ensures p == Encode(words, seed)
  {
    var s: nat := seed % PHRASE_SPACE;
    var w: seq<string> := [];
    ghost var low := s;
    for i := 0 to PHRASE_LEN
      invariant i <= PHRASE_LEN && w + Digits(words, s, PHRASE_LEN - i) == Digits(words, low, PHRASE_LEN)
    {
      ghost var rest := Digits(words, s / PHRASE_BASE, PHRASE_LEN - i - 1);
      assert w + ([words[s % PHRASE_BASE]] + rest) == (w + [words[s % PHRASE_BASE]]) + rest;
      w := w + [words[s % PHRASE_BASE]];
      s := s / PHRASE_BASE;
    }
    assert w + [] == w;
    return Join(w);
  }

  method ParseWith(words: seq<string>, p: string) returns (r: Option<nat>)
    ensures r == Parse(words, p)
  {
    var index := BuildIndex(words);
    var parts := Split(p);
    if |parts| != PHRASE_LEN {
      return None;
    }
    var s := 0;
    var i := PHRASE_LEN;
    while i > 0
      invariant 0 <= i <= PHRASE_LEN && Value(words, parts[i..]) == Some(s)
    {
      i := i - 1;
      assert parts[i..][1..] == parts[i + 1..];
      if parts[i] !in index {
        UnknownWord(words, parts, i);
        return None;
      }
      s := s * PHRASE_BASE + index[parts[i]];
    }
    assert parts[0..] == parts;
    return Some(s);
  }

  lemma UnknownWord(words: seq<string>, parts: seq<string>, i: nat)
    requires i < |parts| && IndexOf(parts[i], words).None?
    ensures Value(words, parts) == None
  {
    IndexOfFinds(parts[i], words);
    AcceptedExactly(words, parts);
  }

  /** `encodePhrase`: the phrase parses back to the seed's low 24 bits. */
  method EncodePhrase(seed: nat) returns (p: string)
    ensures |WORDS| == PHRASE_BASE && p == Encode(WORDS, seed)
    ensures p == WORDS[seed % 64] + "-" +
      (WORDS[seed / 64 % 64] + "-" + (WORDS[seed / 64 / 64 % 64] + "-" + WORDS[seed / 64 / 64 / 64 % 64]))
    ensures Parse(WORDS, p) == Some(seed % PHRASE_SPACE)
  {
    PhraseWordsAreAVocabulary();
    EncodeIsFourWords(WORDS, seed);
    ParseInvertsEncode(WORDS, seed);
    p := EncodeWith(WORDS, seed);
  }

  /** `parsePhrase`: an accepted phrase is the encoding of the result. */
  method ParsePhrase(p: string) returns (r: Option<nat>)
    ensures |WORDS| == PHRASE_BASE && r == Parse(WORDS, p)
    ensures r.Some? ==> r.value < PHRASE_SPACE && Encode(WORDS, r.value) == p
  {
    PhraseWordsAreAVocabulary();
    r := ParseWith(WORDS, p);
    if r.Some? { EncodeInvertsParse(WORDS, p); }
  }
}
