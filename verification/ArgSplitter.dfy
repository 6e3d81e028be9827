/** `splitArgs` of internal/core/asserts.go: splits the text after a call's opening
    parenthesis into its arguments. */
module ArgSplitter {
  import opened Options

  predicate IsQuote(c: char) { c == '"' || c == '\'' || c == '`' }
  predicate IsOpen(c: char) { c == '(' || c == '[' || c == '{' }
  predicate IsClose(c: char) { c == ')' || c == ']' || c == '}' }

  /** The character at i ends the literal opened by q. */
  predicate Closes(s: string, i: nat, q: char)
    requires i < |s|
  {
    s[i] == q && (q == '`' || i == 0 || s[i - 1] != '\\')
  }

  /** The scanner from position i; the empty list stands for nil. */
  function Scan(s: string, i: nat, depth: int, quote: Option<char>, start: nat, args: seq<string>): seq<string>
    requires start <= i <= |s|
    decreases |s| - i
  {
    if i == |s| then []
    else if quote.Some? then
      Scan(s, i + 1, depth, if Closes(s, i, quote.value) then None else quote, start, args)
    else if IsQuote(s[i]) then Scan(s, i + 1, depth, Some(s[i]), start, args)
    else if IsOpen(s[i]) then Scan(s, i + 1, depth + 1, None, start, args)
    else if IsClose(s[i]) then
      if s[i] == ')' && depth == 0 then args + [s[start..i]]
      else Scan(s, i + 1, depth - 1, None, start, args)
    else if s[i] == ',' && depth == 0 then Scan(s, i + 1, depth, None, i + 1, args + [s[start..i]])
    else Scan(s, i + 1, depth, None, start, args)
  }

  function Split(s: string): seq<string> {
    Scan(s, 0, 0, None, 0, [])
  }

  method SplitArgs(s: string) returns (r: seq<string>)
    ensures r == Split(s)
  {
    var args: seq<string> := [];
    var depth := 0;
    var start := 0;
    var quote: Option<char> := None;
    for i := 0 to |s|
      invariant start <= i
      invariant Scan(s, i, depth, quote, start, args) == Split(s)
    {
      if quote.Some? {
        if s[i] == quote.value && (quote.value == '`' || i == 0 || s[i - 1] != '\\') {
          quote := None;
        }
        continue;
      }
      if s[i] == '"' || s[i] == '\'' || s[i] == '`' {
        quote := Some(s[i]);
      } else if s[i] == '(' || s[i] == '[' || s[i] == '{' {
        depth := depth + 1;
      } else if s[i] == ')' || s[i] == ']' || s[i] == '}' {
        if s[i] == ')' && depth == 0 {
          return args + [s[start..i]];
        }
        depth := depth - 1;
      } else if s[i] == ',' {
        if depth == 0 {
          args := args + [s[start..i]];
          start := i + 1;
        }
      }
    }
    return [];
  }

  // ---------- what an argument list is ----------

  /** An argument is a sequence of plain characters, quoted literals and bracketed groups. */
  datatype Item =
    | Plain(c: char)
    | Quoted(q: char, body: string)
    | Group(open: char, inner: seq<Item>, close: char)

  /** Every quote inside the body is escaped. */
  predicate StaysInside(q: char, body: string) {
    forall k :: 0 <= k < |body| && body[k] == q ==> q != '`' && k > 0 && body[k - 1] == '\\'
  }

  /** The body does not end by escaping its closing quote, as the scanner reads it. */
  predicate EndsClean(q: char, body: string) {
    q == '`' || body == [] || body[|body| - 1] != '\\'
  }

  /** Brackets are balanced; at the top level there is no comma. */
  predicate Valid(items: seq<Item>, top: bool) {
    forall k :: 0 <= k < |items| ==> ValidItem(items[k], top)
  }

  predicate ValidItem(item: Item, top: bool) {
    match item
    case Plain(c) => c !in {'"', '\'', '`', '(', '[', '{', ')', ']', '}'} && (top ==> c != ',')
    case Quoted(q, body) => q in {'"', '\'', '`'} && StaysInside(q, body) && EndsClean(q, body)
    case Group(open, inner, close) =>
      open in {'(', '[', '{'} && close in {')', ']', '}'} && forall k :: 0 <= k < |inner| ==> ValidItem(inner[k], false)
  }

  function RenderItem(item: Item): string {
    match item
    case Plain(c) => [c]
    case Quoted(q, body) => [q] + body + [q]
    case Group(open, inner, close) => [open] + Render(inner) + [close]
  }

  function Render(items: seq<Item>): string {
    if items == [] then [] else RenderItem(items[0]) + Render(items[1..])
  }

  function Join(args: seq<string>): string
    requires args != []
  {
    if |args| == 1 then args[0] else args[0] + "," + Join(args[1..])
  }

  function RenderAll(args: seq<seq<Item>>): (r: seq<string>)
    ensures |r| == |args|
  {
    seq(|args|, k requires 0 <= k < |args| => Render(args[k]))
  }

  // ---------- texts inside texts ----------

  /** text occurs in s at position i. */
  predicate At(s: string, i: nat, text: string) {
    i + |text| <= |s| && forall k :: 0 <= k < |text| ==> s[i + k] == text[k]
  }

  lemma AtChar(s: string, i: nat, text: string, k: nat)
    requires At(s, i, text) && k < |text|
    ensures i + k < |s| && s[i + k] == text[k]
  {
  }

  lemma AtParts(s: string, i: nat, x: string, y: string)
    requires At(s, i, x + y)
    ensures At(s, i, x) && At(s, i + |x|, y)
  {
    forall k | 0 <= k < |x| ensures s[i + k] == x[k] {
      assert (x + y)[k] == x[k];
    }
    forall k | 0 <= k < |y| ensures s[i + |x| + k] == y[k] {
      assert (x + y)[|x| + k] == y[k] && s[i + (|x| + k)] == (x + y)[|x| + k];
    }
  }

  // ---------- one argument by itself ----------

  /** Where the scanner stands at the end of a text, or that it cut the text. */
  datatype Reading = Cut | Reached(depth: int, quote: Option<char>)

  function Read(s: string, i: nat, depth: int, quote: Option<char>): Reading
    requires i <= |s|
    decreases |s| - i
  {
    if i == |s| then Reached(depth, quote)
    else if quote.Some? then Read(s, i + 1, depth, if Closes(s, i, quote.value) then None else quote)
    else if IsQuote(s[i]) then Read(s, i + 1, depth, Some(s[i]))
    else if IsOpen(s[i]) then Read(s, i + 1, depth + 1, None)
    else if IsClose(s[i]) then if s[i] == ')' && depth == 0 then Cut else Read(s, i + 1, depth - 1, None)
    else if s[i] == ',' && depth == 0 then Cut
    else Read(s, i + 1, depth, None)
  }

  /** Read by itself, the text is not cut and ends outside any bracket or literal. */
  predicate StandsAlone(text: string) {
    Read(text, 0, 0, None) == Reached(0, None)
  }

  /** The scanner reads an argument inside a longer text as it reads it alone. */
  lemma {:induction false} ScanAsRead(
    s: string, i: nat, text: string, k: nat, depth: int, quote: Option<char>, args: seq<string>)
    requires At(s, i, text) && k <= |text| && (quote.Some? ==> k > 0)
    ensures match Read(text, k, depth, quote)
      case Reached(d, q) => Scan(s, i + k, depth, quote, i, args) == Scan(s, i + |text|, d, q, i, args)
      case Cut => IsCut(Scan(s, i + k, depth, quote, i, args), args, |text|)
    decreases |text| - k
  {
    if k == |text| {
    } else {
      AtChar(s, i, text, k);
      if k > 0 { AtChar(s, i, text, k - 1); }
      var c := text[k];
      if quote.Some? {
        ScanAsRead(s, i, text, k + 1, depth, if Closes(text, k, quote.value) then None else quote, args);
      } else if IsQuote(c) {
        ScanAsRead(s, i, text, k + 1, depth, Some(c), args);
      } else if IsOpen(c) {
        ScanAsRead(s, i, text, k + 1, depth + 1, None, args);
      } else if IsClose(c) && !(c == ')' && depth == 0) {
        ScanAsRead(s, i, text, k + 1, depth - 1, None, args);
      } else if c == ',' && depth == 0 {
        ScanKeeps(s, i + k + 1, depth, None, i + k + 1, args + [s[i..i + k]]);
      } else if !IsClose(c) {
        ScanAsRead(s, i, text, k + 1, depth, None, args);
      }
    }
  }

  /** Nothing was found, or the next argument is shorter than n. */
  predicate IsCut(r: seq<string>, args: seq<string>, n: nat) {
    r == [] || (|r| > |args| && |r[|args|]| < n)
  }

  lemma {:induction false} ScanKeeps(
    s: string, i: nat, depth: int, quote: Option<char>, start: nat, args: seq<string>)
    requires start <= i <= |s|
    ensures var r := Scan(s, i, depth, quote, start, args); r == [] || args <= r
    decreases |s| - i
  {
    if i == |s| {
    } else {
      if quote.Some? {
        ScanKeeps(s, i + 1, depth, if Closes(s, i, quote.value) then None else quote, start, args);
      } else if IsQuote(s[i]) {
        ScanKeeps(s, i + 1, depth, Some(s[i]), start, args);
      } else if IsOpen(s[i]) {
        ScanKeeps(s, i + 1, depth + 1, None, start, args);
      } else if IsClose(s[i]) {
        if !(s[i] == ')' && depth == 0) { ScanKeeps(s, i + 1, depth - 1, None, start, args); }
      } else if s[i] == ',' && depth == 0 {
        ScanKeeps(s, i + 1, depth, None, i + 1, args + [s[start..i]]);
      } else {
        ScanKeeps(s, i + 1, depth, None, start, args);
      }
    }
  }

  /** Nothing is found, or the next argument reaches at least to i. */
  lemma {:induction false} NextReaches(
    s: string, i: nat, depth: int, quote: Option<char>, start: nat, args: seq<string>)
    requires start <= i <= |s|
    ensures var r := Scan(s, i, depth, quote, start, args);
      r == [] || (|r| > |args| && |r[|args|]| >= i - start)
    decreases |s| - i
  {
    if i == |s| {
    } else {
      if quote.Some? {
        NextReaches(s, i + 1, depth, if Closes(s, i, quote.value) then None else quote, start, args);
      } else if IsQuote(s[i]) {
        NextReaches(s, i + 1, depth, Some(s[i]), start, args);
      } else if IsOpen(s[i]) {
        NextReaches(s, i + 1, depth + 1, None, start, args);
      } else if IsClose(s[i]) {
        if !(s[i] == ')' && depth == 0) { NextReaches(s, i + 1, depth - 1, None, start, args); }
      } else if s[i] == ',' && depth == 0 {
        ScanKeeps(s, i + 1, depth, None, i + 1, args + [s[start..i]]);
      } else {
        NextReaches(s, i + 1, depth, None, start, args);
      }
    }
  }

  // ---------- splitting inverts joining ----------

  /** An argument followed by a separator is found exactly when it stands alone. */
  lemma FindsArgument(s: string, i: nat, text: string, args: seq<string>)
    requires At(s, i, text) && i + |text| < |s| && (s[i + |text|] == ',' || s[i + |text|] == ')')
    ensures var e := i + |text|;
      if !StandsAlone(text) then !(args + [text] <= Scan(s, i, 0, None, i, args))
      else if s[e] == ')' then Scan(s, i, 0, None, i, args) == args + [text]
      else Scan(s, i, 0, None, i, args) == Scan(s, e + 1, 0, None, e + 1, args + [text])
  {
    var e := i + |text|;
    ScanAsRead(s, i, text, 0, 0, None, args);
    assert s[i..e] == text;
    var r := Scan(s, i, 0, None, i, args);
    if !StandsAlone(text) && args + [text] <= r {
      assert r[|args|] == text;
      var end := Read(text, 0, 0, None);
      if end.Reached? { ReachesPast(s, i, e, end, args); }
    }
  }

  /** A separator read inside a bracket or a literal becomes part of the argument. */
  lemma ReachesPast(s: string, i: nat, e: nat, end: Reading, args: seq<string>)
    requires i <= e < |s| && (s[e] == ',' || s[e] == ')')
    requires end.Reached? && end != Reached(0, None)
    ensures var r := Scan(s, e, end.depth, end.quote, i, args);
      r == [] || (|r| > |args| && |r[|args|]| > e - i)
  {
    var d, q := end.depth, end.quote;
    if q.Some? {
      NextReaches(s, e + 1, d, if Closes(s, e, q.value) then None else q, i, args);
    } else {
      NextReaches(s, e + 1, if s[e] == ')' then d - 1 else d, None, i, args);
    }
  }

  lemma {:induction false} ScanArgs(s: string, i: nat, texts: seq<string>, done: seq<string>)
    requires texts != [] && At(s, i, Join(texts) + ")")
    ensures Scan(s, i, 0, None, i, done) == done + texts <==> forall k :: 0 <= k < |texts| ==> StandsAlone(texts[k])
    decreases |texts|
  {
    var text := texts[0];
    var e := i + |text|;
    var r := Scan(s, i, 0, None, i, done);
    assert r == done + texts ==> done + [text] <= r;
    if |texts| == 1 {
      AtParts(s, i, text, ")");
      AtChar(s, e, ")", 0);
      assert texts == [text];
      FindsArgument(s, i, text, done);
    } else {
      var rest := Join(texts[1..]) + ")";
      assert Join(texts) + ")" == text + ("," + rest);
      AtParts(s, i, text, "," + rest);
      AtParts(s, e, ",", rest);
      AtChar(s, e, ",", 0);
      FindsArgument(s, i, text, done);
      ScanArgs(s, e + 1, texts[1..], done + [text]);
      assert done + texts == done + [text] + texts[1..];
      assert forall k :: 1 <= k < |texts| ==> texts[k] == texts[1..][k - 1];
    }
  }

  /** Splitting a comma-join followed by a closing parenthesis and anything else
      gives back exactly the arguments if and only if each of them stands alone. */
  lemma SplitExact(args: seq<string>, suffix: string)
    requires args != []
    ensures Split(Join(args) + ")" + suffix) == args <==> forall k :: 0 <= k < |args| ==> StandsAlone(args[k])
  {
    ScanArgs(Join(args) + ")" + suffix, 0, args, []);
    assert [] + args == args;
  }

  // ---------- well-formed arguments stand alone ----------

  lemma {:induction false} ReadBody(s: string, i: nat, body: string, k: nat, depth: int, q: char)
    requires i >= 1 && k <= |body| && At(s, i, body) && StaysInside(q, body) && s[i - 1] == q
    ensures Read(s, i + k, depth, Some(q)) == Read(s, i + |body|, depth, Some(q))
    decreases |body| - k
  {
    if k == |body| {
    } else {
      AtChar(s, i, body, k);
      if k > 0 { AtChar(s, i, body, k - 1); }
      ReadBody(s, i, body, k + 1, depth, q);
    }
  }

  lemma QuotedParts(s: string, i: nat, q: char, body: string)
    requires At(s, i, [q] + body + [q]) && q in {'"', '\'', '`'} && StaysInside(q, body)
    ensures var e := i + 1 + |body|;
      e < |s| && s[i] == q && At(s, i + 1, body) && (Closes(s, e, q) <==> EndsClean(q, body)) && s[e] == q
  {
    var e := i + 1 + |body|;
    AtParts(s, i, [q] + body, [q]);
    AtParts(s, i, [q], body);
    AtChar(s, i, [q], 0);
    AtChar(s, e, [q], 0);
    if body != [] { AtChar(s, i + 1, body, |body| - 1); }
  }

  lemma ReadQuoted(s: string, i: nat, q: char, body: string, depth: int)
    requires At(s, i, [q] + body + [q]) && q in {'"', '\'', '`'} && StaysInside(q, body)
    ensures Read(s, i, depth, None) ==
            Read(s, i + |body| + 2, depth, if EndsClean(q, body) then None else Some(q))
  {
    QuotedParts(s, i, q, body);
    ReadBody(s, i + 1, body, 0, depth, q);
  }

  lemma {:induction false} ReadItem(s: string, i: nat, item: Item, top: bool, depth: int)
    requires At(s, i, RenderItem(item)) && ValidItem(item, top)
    requires depth >= 0 && (depth == 0 ==> top)
    ensures Read(s, i, depth, None) == Read(s, i + |RenderItem(item)|, depth, None)
    decreases item, 1
  {
    match item
    case Plain(c) => AtChar(s, i, [c], 0);
    case Quoted(q, body) => ReadQuoted(s, i, q, body, depth);
    case Group(open, inner, close) =>
      var text := Render(inner);
      AtParts(s, i, [open] + text, [close]);
      AtParts(s, i, [open], text);
      AtChar(s, i, [open], 0);
      AtChar(s, i + 1 + |text|, [close], 0);
      ReadItems(s, i + 1, inner, false, depth + 1);
  }

  /** The scanner passes over plain characters, literals and balanced groups. */
  lemma {:induction false} ReadItems(s: string, i: nat, items: seq<Item>, top: bool, depth: int)
    requires At(s, i, Render(items)) && forall k :: 0 <= k < |items| ==> ValidItem(items[k], top)
    requires depth >= 0 && (depth == 0 ==> top)
    ensures Read(s, i, depth, None) == Read(s, i + |Render(items)|, depth, None)
    decreases items, 0
  {
    if items == [] {
    } else {
      AtParts(s, i, RenderItem(items[0]), Render(items[1..]));
      ReadItem(s, i, items[0], top, depth);
      ReadItems(s, i + |RenderItem(items[0])|, items[1..], top, depth);
    }
  }

  /** So splitting inverts joining on well-formed arguments. */
  lemma SplitInvertsJoin(args: seq<seq<Item>>, suffix: string)
    requires args != [] && forall k :: 0 <= k < |args| ==> Valid(args[k], true)
    ensures Split(Join(RenderAll(args)) + ")" + suffix) == RenderAll(args)
  {
    forall k | 0 <= k < |args| ensures StandsAlone(Render(args[k])) {
      ReadItems(Render(args[k]), 0, args[k], true, 0);
    }
    SplitExact(RenderAll(args), suffix);
  }

  // ---------- where it fails ----------

  /** A literal stands alone exactly when it does not end in a backslash, escaped or not. */
  lemma LiteralStandsAlone(q: char, body: string)
    requires q in {'"', '\'', '`'} && StaysInside(q, body)
    ensures StandsAlone([q] + body + [q]) <==> EndsClean(q, body)
  {
    ReadQuoted([q] + body + [q], 0, q, body, 0);
  }

  /** A call with one quoted literal is split correctly exactly when the literal
      does not end in a backslash. */
  lemma SplitLiteralExact(q: char, body: string, suffix: string)
    requires q in {'"', '\'', '`'} && StaysInside(q, body)
    ensures Split([q] + body + [q] + ")" + suffix) == [[q] + body + [q]] <==> EndsClean(q, body)
  {
    LiteralStandsAlone(q, body);
    SplitExact([[q] + body + [q]], suffix);
  }

  /** The call f("\\", x) of two well-formed arguments is not split at all. */
  lemma EscapedBackslashIsNotSplit()
    ensures Split("\"\\\\\", x)") == []
  {
    var s := "\"\\\\\", x)";
    assert |s| == 8;
    assert Scan(s, 1, 0, Some('"'), 0, []) == Split(s);
    assert Scan(s, 4, 0, Some('"'), 0, []) == Scan(s, 1, 0, Some('"'), 0, []) by {
      assert Scan(s, 2, 0, Some('"'), 0, []) == Scan(s, 1, 0, Some('"'), 0, []);
      assert Scan(s, 3, 0, Some('"'), 0, []) == Scan(s, 2, 0, Some('"'), 0, []);
    }
    assert Scan(s, 8, 0, Some('"'), 0, []) == Scan(s, 4, 0, Some('"'), 0, []) by {
      assert Scan(s, 5, 0, Some('"'), 0, []) == Scan(s, 4, 0, Some('"'), 0, []);
      assert Scan(s, 6, 0, Some('"'), 0, []) == Scan(s, 5, 0, Some('"'), 0, []);
      assert Scan(s, 7, 0, Some('"'), 0, []) == Scan(s, 6, 0, Some('"'), 0, []);
    }
  }
}
