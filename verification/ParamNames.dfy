/** Parameter names of generated code: `buildMethod` in internal/testigogen/spy.go
    and the renaming loop of `renderSeeder` in internal/testigogen/seeder.go. */
module ParamNames {
  import opened Options
  import opened Names

  /** What naming looks at in a type, pointers looked through. */
  datatype Shape = Context | Named(name: string) | Unnamed

  datatype Source = Source(name: string, shape: Shape)

  function LowerFirst(s: string): string {
    if s == "" then s else [if 'A' <= s[0] <= 'Z' then s[0] - 'A' + 'a' else s[0]] + s[1..]
  }

  /** `inferredParameterName`. */
  function Inferred(shape: Shape, index: nat): string {
    match shape
    case Context => "ctx"
    case Named(name) => if ValidIdentifier(LowerFirst(name)) then LowerFirst(name) else "arg" + Decimal(index)
    case Unnamed => "arg" + Decimal(index)
  }

  predicate Usable(name: string, used: set<string>) {
    name != "" && name != "_" && ValidIdentifier(name) && name !in used
  }

  function ParamName(p: Source, index: nat, used: set<string>): string {
    Grow(if Usable(p.name, used) then p.name else Inferred(p.shape, index), "Value", used)
  }

  /** The names chosen from the given index on, when `used` are taken. */
  function NamesFrom(params: seq<Source>, index: nat, used: set<string>): (r: seq<string>)
    requires index <= |params|
    ensures |r| == |params| - index
    decreases |params| - index
  {
    if index == |params| then []
    else
      var name := ParamName(params[index], index, used);
      [name] + NamesFrom(params, index + 1, used + {name})
  }

  const RECEIVER := {"s"}

  function MethodNames(params: seq<Source>): (r: seq<string>)
    ensures |r| == |params|
  {
    NamesFrom(params, 0, RECEIVER)
  }

  ghost predicate Distinct(names: seq<string>, taken: set<string>) {
    && (forall i, j :: 0 <= i < j < |names| ==> names[i] != names[j])
    && (forall i :: 0 <= i < |names| ==> names[i] !in taken)
  }

  lemma {:induction false} NamesFromDistinct(params: seq<Source>, index: nat, used: set<string>)
    requires index <= |params|
    ensures Distinct(NamesFrom(params, index, used), used)
    decreases |params| - index
  {
    if index == |params| {
    } else {
      var name := ParamName(params[index], index, used);
      NamesFromDistinct(params, index + 1, used + {name});
      var rest := NamesFrom(params, index + 1, used + {name});
      assert forall i :: 0 <= i < |rest| ==> rest[i] !in used + {name};
    }
  }

  lemma InferredIsValid(shape: Shape, index: nat)
    ensures ValidIdentifier(Inferred(shape, index))
  {
    var s := "arg" + Decimal(index);
    NotAKeyword(s, 3);
    assert IsIdentifier(s);
    assert IsIdentifier("ctx") && "ctx" !in KEYWORDS;
  }

  lemma {:induction false} NamesFromValid(params: seq<Source>, index: nat, used: set<string>)
    requires index <= |params|
    ensures forall i :: 0 <= i < |params| - index ==> ValidIdentifier(NamesFrom(params, index, used)[i])
    decreases |params| - index
  {
    if index == |params| {
    } else {
      var p := params[index];
      InferredIsValid(p.shape, index);
      GrowIsValid(if Usable(p.name, used) then p.name else Inferred(p.shape, index), "Value", used);
      NamesFromValid(params, index + 1, used + {ParamName(p, index, used)});
    }
  }

  /** For every signature: identifiers, pairwise distinct, none the receiver's. */
  lemma MethodNamesSound(params: seq<Source>)
    ensures Distinct(MethodNames(params), {"s"})
    ensures forall i :: 0 <= i < |params| ==> ValidIdentifier(MethodNames(params)[i])
  {
    NamesFromDistinct(params, 0, RECEIVER);
    NamesFromValid(params, 0, RECEIVER);
  }

  // ---------- which names ----------

  /** s is n with a capital first letter made small. */
  ghost predicate SmallFirst(n: string, s: string) {
    |s| == |n| && (n != "" ==>
      && s[1..] == n[1..]
      && s[0] as int == n[0] as int + if 'A' <= n[0] <= 'Z' then 'a' as int - 'A' as int else 0)
  }

  /** What stands in for an unusable name: `ctx` for a context, the name of the type,
      its first letter small, and otherwise the parameter's number. */
  ghost predicate StandsIn(shape: Shape, index: nat, base: string) {
    match shape
    case Context => base == "ctx"
    case Named(n) =>
      || (SmallFirst(n, base) && ValidIdentifier(base))
      || ((forall s :: SmallFirst(n, s) ==> !ValidIdentifier(s)) && base == "arg" + Decimal(index))
    case Unnamed => base == "arg" + Decimal(index)
  }

  /** name is the base and the fewest suffixes that make it free. */
  ghost predicate FewestSuffixes(base: string, suffix: string, taken: set<string>, name: string) {
    name !in taken && exists k: nat :: name == Repeated(base, suffix, k) && AllTaken(base, suffix, taken, k)
  }

  ghost predicate AllTaken(base: string, suffix: string, taken: set<string>, k: nat) {
    forall i: nat :: i < k ==> Repeated(base, suffix, i) in taken
  }

  lemma GrownHasFewest(base: string, suffix: string, taken: set<string>)
    requires suffix != ""
    ensures FewestSuffixes(base, suffix, taken, Grow(base, suffix, taken))
  {
    var k := GrowIsLeast(base, suffix, taken);
    assert AllTaken(base, suffix, taken, k);
  }

  lemma InferredStandsIn(shape: Shape, index: nat)
    ensures StandsIn(shape, index, Inferred(shape, index))
  {
    if shape.Named? {
      forall s | SmallFirst(shape.name, s) ensures s == LowerFirst(shape.name) {}
    }
  }

  /** The i-th name, given the names before it. */
  ghost predicate NamedAt(p: Source, index: nat, taken: set<string>, name: string) {
    exists base ::
      && FewestSuffixes(base, "Value", taken, name)
      && if p.name != "" && p.name != "_" && ValidIdentifier(p.name) && p.name !in taken then base == p.name
         else StandsIn(p.shape, index, base)
  }

  lemma ParamNamedAt(p: Source, index: nat, taken: set<string>)
    ensures NamedAt(p, index, taken, ParamName(p, index, taken))
  {
    var base := if Usable(p.name, taken) then p.name else Inferred(p.shape, index);
    InferredStandsIn(p.shape, index);
    GrownHasFewest(base, "Value", taken);
  }

  function NameSet(names: seq<string>): set<string> {
    set n | n in names
  }

  lemma NameSetStep(used: set<string>, name: string, rest: seq<string>, k: nat)
    requires k < |rest|
    ensures ([name] + rest)[k + 1] == rest[k]
    ensures used + NameSet(([name] + rest)[..k + 1]) == used + {name} + NameSet(rest[..k])
  {
    assert ([name] + rest)[..k + 1] == [name] + rest[..k];
  }

  lemma {:induction false} NamesFromExactly(params: seq<Source>, index: nat, used: set<string>, i: nat)
    requires index <= i < |params|
    ensures var names := NamesFrom(params, index, used);
      NamedAt(params[i], i, used + NameSet(names[..i - index]), names[i - index])
    decreases |params| - index
  {
    var name := ParamName(params[index], index, used);
    var rest := NamesFrom(params, index + 1, used + {name});
    if i == index {
      ParamNamedAt(params[index], index, used);
      assert used + NameSet([]) == used;
    } else {
      NamesFromExactly(params, index + 1, used + {name}, i);
      NameSetStep(used, name, rest, i - index - 1);
    }
  }

  /** Every parameter keeps its name if it can, else gets its stand-in, with as many
      suffixes as it takes to tell it from the receiver and the parameters before it. */
  lemma MethodNamesExactly(params: seq<Source>, i: nat)
    requires i < |params|
    ensures NamedAt(params[i], i, {"s"} + NameSet(MethodNames(params)[..i]), MethodNames(params)[i])
  {
    var names := MethodNames(params);
    assert names[..i - 0] == names[..i] && names[i - 0] == names[i];
    NamesFromExactly(params, 0, {"s"}, i);
  }

  /** Names that are already fine are kept. */
  lemma {:induction false} GoodNamesKept(params: seq<Source>, index: nat, used: set<string>)
    requires index <= |params|
    requires forall i :: index <= i < |params| ==> Usable(params[i].name, used)
    requires forall i, j :: index <= i < j < |params| ==> params[i].name != params[j].name
    ensures forall i :: index <= i < |params| ==> NamesFrom(params, index, used)[i - index] == params[i].name
    decreases |params| - index
  {
    if index == |params| {
    } else {
      assert ParamName(params[index], index, used) == params[index].name;
      GoodNamesKept(params, index + 1, used + {params[index].name});
    }
  }

  /** `buildMethod`, as far as naming goes; generic signatures are refused. */
  method BuildMethod(params: seq<Source>, generic: bool) returns (names: Option<seq<string>>)
    ensures names == if generic then None else Some(MethodNames(params))
  {
    if generic {
      return None;
    }
    var used := {"s"};
    var out: seq<string> := [];
    for i := 0 to |params|
      invariant out + NamesFrom(params, i, used) == MethodNames(params)
    {
      var paramName := params[i].name;
      if paramName == "" || paramName == "_" || !ValidIdentifier(paramName) || paramName in used {
        paramName := Inferred(params[i].shape, i);
      }
      var grown := GrowName(paramName, "Value", used);
      ghost var rest := NamesFrom(params, i + 1, used + {grown});
      assert out + ([grown] + rest) == (out + [grown]) + rest;
      used := used + {grown};
      out := out + [grown];
    }
    assert out + [] == out;
    return Some(out);
  }

  // ---------- the seeder ----------

  const RESERVED := {"t", "repository", "value"}

  /** Renames from the given index on; the entity parameter is skipped. */
  function SeederFrom(names: seq<string>, entity: nat, index: nat, reserved: set<string>): (r: seq<string>)
    requires index <= |names|
    ensures |r| == |names|
    ensures forall i :: 0 <= i < |names| && (i < index || i == entity) ==> r[i] == names[i]
    decreases |names| - index
  {
    if index == |names| then names
    else if index == entity then SeederFrom(names, entity, index + 1, reserved)
    else
      var name := Grow(names[index], "Arg", reserved);
      SeederFrom(names[index := name], entity, index + 1, reserved + {name})
  }

  function SeederNames(names: seq<string>, entity: nat): (r: seq<string>)
    ensures |r| == |names|
  {
    SeederFrom(names, entity, 0, RESERVED)
  }

  ghost predicate SeederDistinct(r: seq<string>, entity: nat, index: nat, reserved: set<string>) {
    && (forall i, j :: index <= i < j < |r| && i != entity && j != entity ==> r[i] != r[j])
    && (forall i :: index <= i < |r| && i != entity ==> r[i] !in reserved)
  }

  lemma {:induction false} SeederFromDistinct(names: seq<string>, entity: nat, index: nat, reserved: set<string>)
    requires index <= |names|
    ensures SeederDistinct(SeederFrom(names, entity, index, reserved), entity, index, reserved)
    decreases |names| - index
  {
    if index == |names| {
    } else {
      if index == entity {
        SeederFromDistinct(names, entity, index + 1, reserved);
      } else {
        var name := Grow(names[index], "Arg", reserved);
        SeederFromDistinct(names[index := name], entity, index + 1, reserved + {name});
        var r := SeederFrom(names[index := name], entity, index + 1, reserved + {name});
        assert r[index] == name;
        assert forall i :: index + 1 <= i < |r| && i != entity ==> r[i] !in reserved + {name};
      }
    }
  }

  /** Constructor parameters are pairwise distinct and clash with none of the
      names the constructor declares itself. */
  lemma SeederNamesSound(names: seq<string>, entity: nat)
    requires entity < |names|
    ensures var r := SeederNames(names, entity);
      Distinct(r[..entity] + r[entity + 1..], {"t", "repository", "value"})
  {
    SeederFromDistinct(names, entity, 0, RESERVED);
    var r := SeederNames(names, entity);
    var w := r[..entity] + r[entity + 1..];
    assert forall i :: 0 <= i < |w| ==> w[i] == r[if i < entity then i else i + 1];
  }

  /** The names before position i, the entity's aside. */
  function OthersBefore(r: seq<string>, entity: nat, i: nat): set<string>
    requires i <= |r|
  {
    set j | 0 <= j < i && j != entity :: r[j]
  }

  lemma OthersSame(a: seq<string>, b: seq<string>, entity: nat, i: nat)
    requires i <= |a| && i <= |b| && forall j :: 0 <= j < i ==> a[j] == b[j]
    ensures OthersBefore(a, entity, i) == OthersBefore(b, entity, i)
  {
    forall x ensures x in OthersBefore(a, entity, i) <==> x in OthersBefore(b, entity, i) {}
  }

  lemma OthersStep(r: seq<string>, entity: nat, i: nat)
    requires i < |r| && i != entity
    ensures OthersBefore(r, entity, i + 1) == OthersBefore(r, entity, i) + {r[i]}
  {
  }

  lemma {:induction false} SeederFromExactly(
    names: seq<string>, entity: nat, index: nat, reserved: set<string>, taken: set<string>, i: nat)
    requires index <= i < |names| && i != entity && reserved == taken + OthersBefore(names, entity, index)
    ensures var r := SeederFrom(names, entity, index, reserved);
      FewestSuffixes(names[i], "Arg", taken + OthersBefore(r, entity, i), r[i])
    decreases |names| - index
  {
    if index == entity {
      SeederFromExactly(names, entity, index + 1, reserved, taken, i);
    } else {
      var name := Grow(names[index], "Arg", reserved);
      var next := names[index := name];
      var r := SeederFrom(next, entity, index + 1, reserved + {name});
      if i == index {
        GrownHasFewest(names[i], "Arg", reserved);
        OthersSame(r, names, entity, i);
      } else {
        OthersSame(next, names, entity, index);
        OthersStep(next, entity, index);
        SeederFromExactly(next, entity, index + 1, reserved + {name}, taken, i);
      }
    }
  }

  /** Every parameter but the entity gets as many suffixes as it takes to tell it
      from the constructor's own names and the parameters before it. */
  lemma SeederNamesExactly(names: seq<string>, entity: nat, i: nat)
    requires i < |names|
    ensures var r := SeederNames(names, entity);
      if i == entity then r[i] == names[i]
      else FewestSuffixes(names[i], "Arg", {"t", "repository", "value"} + OthersBefore(r, entity, i), r[i])
  {
    assert RESERVED + OthersBefore(names, entity, 0) == RESERVED;
    if i != entity { SeederFromExactly(names, entity, 0, RESERVED, RESERVED, i); }
  }

  /** After `buildMethod` only a clash with the constructor's own names renames. */
  lemma {:induction false} SeederKeepsOthers(names: seq<string>, entity: nat, index: nat, reserved: set<string>)
    requires index <= |names|
    requires forall i, j :: index <= i < j < |names| ==> names[i] != names[j]
    requires forall i :: index <= i < |names| && i != entity ==> names[i] !in reserved
    ensures SeederFrom(names, entity, index, reserved) == names
    decreases |names| - index
  {
    if index == |names| {
    } else {
      if index == entity {
        SeederKeepsOthers(names, entity, index + 1, reserved);
      } else {
        assert names[index := names[index]] == names;
        SeederKeepsOthers(names, entity, index + 1, reserved + {names[index]});
      }
    }
  }

  /** The renaming loop, on the method's parameters in place. */
  method RenameForSeeder(names: array<string>, entity: nat) returns (constructorParams: seq<string>)
    requires entity < names.Length
    modifies names
    ensures names[..] == SeederNames(old(names[..]), entity)
    ensures constructorParams == names[..entity] + names[entity + 1..]
    ensures Distinct(constructorParams, {"t", "repository", "value"})
  {
    var reserved := {"t", "repository", "value"};
    constructorParams := [];
    for i := 0 to names.Length
      invariant SeederFrom(names[..], entity, i, reserved) == SeederNames(old(names[..]), entity)
      invariant constructorParams == if i <= entity then names[..i] else names[..entity] + names[entity + 1..i]
    {
      if i == entity {
        continue;
      }
      var name := GrowName(names[i], "Arg", reserved);
      reserved := reserved + {name};
      ghost var before := names[..];
      names[i] := name;
      assert names[..] == before[i := name];
      constructorParams := constructorParams + [name];
    }
    assert names[entity + 1..names.Length] == names[entity + 1..];
    SeederNamesSound(old(names[..]), entity);
  }
}
