/** The import aliases of internal/testigogen/imports.go. */
module Imports {
  import opened Names

  /** `path.Base`. */
  function PathBase(path: string): string {
    if path == "" then "."
    else
      var trimmed := TrimSlashes(path);
      if trimmed == "" then "/" else AfterLastSlash(trimmed)
  }

  function TrimSlashes(path: string): string {
    if path != "" && path[|path| - 1] == '/' then TrimSlashes(path[..|path| - 1]) else path
  }

  function AfterLastSlash(path: string): string {
    if path == "" || path[|path| - 1] == '/' then ""
    else AfterLastSlash(path[..|path| - 1]) + [path[|path| - 1]]
  }

  /** `sanitizeIdentifier`. */
  function Sanitize(value: string): (r: string)
    ensures IsIdentifier(r)
    ensures IsIdentifier(value) ==> r == value
  {
    if value == "" then "value"
    else seq(|value|, i requires 0 <= i < |value| => SanitizeChar(value[i], i == 0))
  }

  function SanitizeChar(c: char, first: bool): char {
    if IsLetter(c) || (!first && IsDigit(c)) then c else '_'
  }

  function Preferred(importPath: string, preferred: string): string {
    Sanitize(if preferred == "" then PathBase(importPath) else preferred)
  }

  // ---------- the requested name ----------

  /** The last element of a slash-separated path, slashes at its end left aside. */
  ghost predicate IsBase(path: string, base: string) {
    if OnlySlashes(path) then base == if path == "" then "." else "/"
    else
      && base != "" && '/' !in base
      && exists pre, post :: path == pre + base + post && EndsElement(pre) && OnlySlashes(post)
  }

  ghost predicate OnlySlashes(s: string) {
    forall i :: 0 <= i < |s| ==> s[i] == '/'
  }

  ghost predicate EndsElement(pre: string) {
    pre == "" || pre[|pre| - 1] == '/'
  }

  /** Letters, underscores and, but for the first place, digits stay; the rest is
      replaced by underscores. */
  ghost predicate Sanitized(value: string, name: string) {
    |name| == |value| && forall i :: 0 <= i < |value| ==>
      var c := value[i];
      name[i] == if c == '_' || 'a' <= c <= 'z' || 'A' <= c <= 'Z' || (i > 0 && '0' <= c <= '9') then c else '_'
  }

  /** Only what cannot stand in an identifier at its place is replaced. */
  lemma SanitizeReplacesLittle(value: string)
    ensures if value == "" then Sanitize(value) == "value" else Sanitized(value, Sanitize(value))
  {
  }

  /** The name asked for, or else the base of the path, made an identifier. */
  ghost predicate Requested(importPath: string, preferred: string, name: string) {
    if preferred != "" then Sanitized(preferred, name)
    else exists base :: IsBase(importPath, base) && Sanitized(base, name)
  }

  lemma {:induction false} TrimmedSlashes(path: string) returns (post: string)
    ensures path == TrimSlashes(path) + post && OnlySlashes(post)
    ensures var t := TrimSlashes(path); t != "" ==> t[|t| - 1] != '/'
  {
    if path != "" && path[|path| - 1] == '/' {
      post := TrimmedSlashes(path[..|path| - 1]);
      post := post + "/";
      assert path == path[..|path| - 1] + "/";
    } else {
      post := "";
    }
  }

  lemma {:induction false} LastElement(path: string) returns (pre: string)
    ensures path == pre + AfterLastSlash(path) && EndsElement(pre) && '/' !in AfterLastSlash(path)
    ensures path != "" && path[|path| - 1] != '/' ==> AfterLastSlash(path) != ""
  {
    if path == "" || path[|path| - 1] == '/' {
      pre := path;
    } else {
      pre := LastElement(path[..|path| - 1]);
      assert path == path[..|path| - 1] + [path[|path| - 1]];
    }
  }

  lemma PathBaseIsBase(path: string)
    ensures IsBase(path, PathBase(path))
  {
    var trimmed := TrimSlashes(path);
    var post := TrimmedSlashes(path);
    if trimmed == "" {
      assert path == post;
    } else {
      assert path[|trimmed| - 1] == trimmed[|trimmed| - 1];
      var pre := LastElement(trimmed);
      assert path == pre + PathBase(path) + post;
    }
  }

  lemma PreferredIsRequested(importPath: string, preferred: string)
    ensures Requested(importPath, preferred, Preferred(importPath, preferred))
  {
    PathBaseIsBase(importPath);
    assert preferred == "" ==> Sanitized(PathBase(importPath), Preferred(importPath, preferred));
  }

  /** A slash and an element at the end of a path: that is its base. */
  lemma BaseOfElement(path: string, pre: string, base: string)
    requires path == pre + "/" + base && base != "" && '/' !in base
    ensures PathBase(path) == base
  {
    assert base[|base| - 1] == path[|path| - 1] && base[|base| - 1] in base;
    var front := LastElement(path);
    var last := AfterLastSlash(path);
    SameElement(front, last, pre + "/", base);
  }

  lemma SameElement(a: string, b: string, c: string, d: string)
    requires a + b == c + d && EndsElement(a) && EndsElement(c) && '/' !in b && '/' !in d
    ensures b == d
  {
    var s := a + b;
    assert s[|a|..] == b && s[|c|..] == d;
    forall i | 0 <= i < |s| ensures |a| <= i || |c| <= i ==> s[i] != '/' {
      if |a| <= i { assert s[i] == b[i - |a|]; }
      if |c| <= i { assert s[i] == d[i - |c|]; }
    }
    assert (a != "" ==> s[|a| - 1] == '/') && (c != "" ==> s[|c| - 1] == '/');
  }

  /** alias is the name, or the name and the least number from 2 on that makes it free. */
  ghost predicate FirstFreeAlias(name: string, used: set<string>, alias: string) {
    && alias !in used
    && (alias == name || (name in used && exists k: nat :: LeastNumber(name, used, k) && alias == name + Decimal(k)))
  }

  ghost predicate LeastNumber(name: string, used: set<string>, k: nat) {
    k >= 2 && forall j: nat :: 2 <= j < k ==> name + Decimal(j) in used
  }

  lemma FirstFreeIsLeast(name: string, used: set<string>)
    ensures Tried(name, 1) <= used
    ensures FirstFreeAlias(name, used, Candidate(name, FirstFree(name, used, 1)))
  {
    assert Tried(name, 1) == {};
    var k := FirstFree(name, used, 1);
    forall j: nat | 1 <= j < k ensures Candidate(name, j) in used {
      assert Candidate(name, j) in Tried(name, k);
    }
    if k >= 2 {
      assert Candidate(name, 1) in used;
      forall j: nat | 2 <= j < k ensures name + Decimal(j) in used { assert Candidate(name, j) in used; }
      assert LeastNumber(name, used, k);
    }
  }

  // ---------- the maps as a value ----------

  datatype Aliases = Aliases(byPath: map<string, string>, byAlias: map<string, string>)

  const NO_ALIASES := Aliases(map[], map[])

  /** The two maps are inverses of each other and every alias is an identifier. */
  ghost predicate Inverse(s: Aliases) {
    && (forall p :: p in s.byPath ==> s.byPath[p] in s.byAlias && s.byAlias[s.byPath[p]] == p)
    && (forall a :: a in s.byAlias ==> s.byAlias[a] in s.byPath && s.byPath[s.byAlias[a]] == a)
    && (forall a :: a in s.byAlias ==> IsIdentifier(a))
  }

  /** The first numbered form of the preferred name that no path uses. */
  function NewAlias(s: Aliases, importPath: string, preferred: string): string {
    var name := Preferred(importPath, preferred);
    assert Tried(name, 1) == {};
    Candidate(name, FirstFree(name, s.byAlias.Keys, 1))
  }

  function Add(s: Aliases, current: string, importPath: string, preferred: string): Aliases {
    if importPath == "" || importPath == current || importPath in s.byPath then s
    else
      var alias := NewAlias(s, importPath, preferred);
      Aliases(s.byPath[importPath := alias], s.byAlias[alias := importPath])
  }

  function AddAll(s: Aliases, current: string, requests: seq<(string, string)>): Aliases
    decreases |requests|
  {
    if requests == [] then s
    else AddAll(Add(s, current, requests[0].0, requests[0].1), current, requests[1..])
  }

  /** An alias is an identifier no path uses: the requested name when it is free. */
  lemma NewAliasIsFree(s: Aliases, importPath: string, preferred: string)
    ensures IsIdentifier(NewAlias(s, importPath, preferred))
    ensures exists name ::
      Requested(importPath, preferred, name) && FirstFreeAlias(name, s.byAlias.Keys, NewAlias(s, importPath, preferred))
  {
    var name := Preferred(importPath, preferred);
    PreferredIsRequested(importPath, preferred);
    FirstFreeIsLeast(name, s.byAlias.Keys);
    CandidateIsIdentifier(name, FirstFree(name, s.byAlias.Keys, 1));
  }

  /** A new path gets the name asked for, if that is an identifier and free. */
  lemma PreferredNameIsUsed(s: Aliases, current: string, importPath: string, preferred: string)
    requires importPath != "" && importPath != current && importPath !in s.byPath
    requires IsIdentifier(preferred) && preferred !in s.byAlias
    ensures Add(s, current, importPath, preferred).byPath[importPath] == preferred
  {
    assert Tried(preferred, 1) == {};
  }

  /** Without a preference it gets what follows the last slash of the path. */
  lemma PathNameIsUsed(s: Aliases, current: string, pre: string, base: string)
    requires var importPath := pre + "/" + base; importPath != current && importPath !in s.byPath
    requires IsIdentifier(base) && base !in s.byAlias
    ensures var importPath := pre + "/" + base; Add(s, current, importPath, "").byPath[importPath] == base
  {
    assert '/' !in base;
    BaseOfElement(pre + "/" + base, pre, base);
    assert Tried(base, 1) == {};
  }

  lemma AddKeepsInverse(s: Aliases, current: string, importPath: string, preferred: string)
    requires Inverse(s)
    ensures Inverse(Add(s, current, importPath, preferred))
    ensures forall p :: p in s.byPath ==>
      p in Add(s, current, importPath, preferred).byPath &&
      Add(s, current, importPath, preferred).byPath[p] == s.byPath[p]
  {
    NewAliasIsFree(s, importPath, preferred);
  }

  /** After any requests the maps are inverses, and no alias given out ever changes. */
  lemma {:induction false} AddAllKeepsAliases(s: Aliases, current: string, requests: seq<(string, string)>)
    requires Inverse(s)
    ensures Inverse(AddAll(s, current, requests))
    ensures forall p :: p in s.byPath ==>
      p in AddAll(s, current, requests).byPath && AddAll(s, current, requests).byPath[p] == s.byPath[p]
    decreases |requests|
  {
    if requests == [] {
    } else {
      AddKeepsInverse(s, current, requests[0].0, requests[0].1);
      AddAllKeepsAliases(Add(s, current, requests[0].0, requests[0].1), current, requests[1..]);
    }
  }

  /** Two imported paths never share an alias. */
  lemma AliasesDistinct(current: string, requests: seq<(string, string)>, p: string, q: string)
    requires p in AddAll(NO_ALIASES, current, requests).byPath && q in AddAll(NO_ALIASES, current, requests).byPath
    requires p != q
    ensures AddAll(NO_ALIASES, current, requests).byPath[p] != AddAll(NO_ALIASES, current, requests).byPath[q]
  {
    AddAllKeepsAliases(NO_ALIASES, current, requests);
  }

  // ---------- the import set ----------

  class ImportSet {
    const current: string
    var byPath: map<string, string>
    var byAlias: map<string, string>
    var defaults: map<string, string>

    ghost function Now(): Aliases
      reads this
    {
      Aliases(byPath, byAlias)
    }

    /** Every path with an alias has its preferred name on record. */
    ghost predicate Valid()
      reads this
    {
      Inverse(Now()) && defaults.Keys == byPath.Keys
    }

    constructor (current: string)
      ensures this.current == current && Valid() && Now() == NO_ALIASES
    {
      this.current := current;
      byPath, byAlias, defaults := map[], map[], map[];
    }

    /** `add`: the empty string stands for the package itself. */
    method AddImport(importPath: string, preferred: string) returns (alias: string)
      requires Valid()
      modifies this
      ensures Valid() && Now() == Add(old(Now()), current, importPath, preferred)
      ensures alias == if importPath == "" || importPath == current then "" else byPath[importPath]
      ensures if importPath == "" || importPath == current || importPath in old(byPath)
              then byPath == old(byPath) && byAlias == old(byAlias) && defaults == old(defaults)
              else
                && importPath in defaults && Requested(importPath, preferred, defaults[importPath])
                && defaults == old(defaults)[importPath := defaults[importPath]]
                && FirstFreeAlias(defaults[importPath], old(byAlias).Keys, alias)
                && byPath == old(byPath)[importPath := alias] && byAlias == old(byAlias)[alias := importPath]
    {
      ghost var s := Now();
      assert Inverse(Add(s, current, importPath, preferred)) by {
        AddKeepsInverse(s, current, importPath, preferred);
      }
      if importPath == "" || importPath == current {
        return "";
      }
      if importPath in byPath {
        return byPath[importPath];
      }
      var name := Sanitize(if preferred == "" then PathBase(importPath) else preferred);
      assert Requested(importPath, preferred, name) by { PreferredIsRequested(importPath, preferred); }
      defaults := defaults[importPath := name];
      alias := FindAlias(name, importPath);
      byPath := byPath[importPath := alias];
      byAlias := byAlias[alias := importPath];
      assert Now() == Add(s, current, importPath, preferred);
    }

    /** The suffix search. */
    method FindAlias(name: string, importPath: string) returns (alias: string)
      requires Inverse(Now()) && importPath !in byPath
      ensures Tried(name, 1) <= byAlias.Keys && alias == Candidate(name, FirstFree(name, byAlias.Keys, 1))
      ensures FirstFreeAlias(name, byAlias.Keys, alias)
    {
      FirstFreeIsLeast(name, byAlias.Keys);
      alias := name;
      var suffix := 2;
      ghost var used := byAlias.Keys;
      assert Tried(name, 1) == {};
      while alias in byAlias && byAlias[alias] != importPath
        invariant suffix >= 2 && alias == Candidate(name, suffix - 1)
        invariant Tried(name, suffix - 1) <= used
        invariant FirstFree(name, used, suffix - 1) == FirstFree(name, used, 1)
        decreases |used| + 2 - suffix
      {
        CandidateTaken(name, suffix - 1, used);
        alias := name + Decimal(suffix);
        suffix := suffix + 1;
      }
    }
  }
}
