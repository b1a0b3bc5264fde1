/** Typed declarations of the tool arguments a policy may see, and their resolution. */
module ArgDecl {
  import opened Prelude
  import opened Strings

  const TYPE_STRING := "string"
  const TYPE_INT := "int64"
  const TYPE_BOOL := "bool"

  predicate ValidArgType(t: string) { t == TYPE_STRING || t == TYPE_INT || t == TYPE_BOOL }

  datatype Declaration = Declaration(name: string, typ: string, required: bool)

  datatype DeclError = EmptyName | BadType | Duplicate

  type DeclarationSet = map<string, Declaration>

  // ---- Declaration sets ----

  /** What is wrong with `d` given the declarations `m` before it. */
  function Problem(m: DeclarationSet, d: Declaration): Option<DeclError>
  {
    if Blank(d.name) then Some(EmptyName)
    else if !ValidArgType(d.typ) then Some(BadType)
    else if d.name in m then Some(Duplicate)
    else None
  }

  /** The set declared by `decls`, or its first problem. */
  function Declared(decls: seq<Declaration>): Result<DeclarationSet, DeclError>
  {
    if decls == [] then Ok(map[])
    else
      var before, d := Declared(decls[..|decls| - 1]), decls[|decls| - 1];
      if before.Err? then before
      else if Problem(before.value, d).Some? then Err(Problem(before.value, d).value)
      else Ok(before.value[d.name := d])
  }

  lemma {:induction false} FirstProblemStays(decls: seq<Declaration>, n: nat)
    requires n <= |decls| && Declared(decls[..n]).Err?
    ensures Declared(decls) == Declared(decls[..n])
  {
    if n == |decls| {
      assert decls[..n] == decls;
    } else {
      assert decls[..|decls| - 1][..n] == decls[..n];
      FirstProblemStays(decls[..|decls| - 1], n);
    }
  }

  lemma DeclaredStep(decls: seq<Declaration>, i: nat)
    requires i < |decls|
    ensures Declared(decls[..i + 1]) ==
      (var before, d := Declared(decls[..i]), decls[i];
       if before.Err? then before
       else if Problem(before.value, d).Some? then Err(Problem(before.value, d).value)
       else Ok(before.value[d.name := d]))
  {
    hide Problem;
    assert decls[..i + 1][..i] == decls[..i];
  }

  method NewDeclarationSet(decls: seq<Declaration>) returns (r: Result<DeclarationSet, DeclError>)
    ensures r == Declared(decls)
  {
    var seen: set<string> := {};
    var m: DeclarationSet := map[];
    for i := 0 to |decls|
      invariant Declared(decls[..i]) == Ok(m) && seen == m.Keys
    {
      var d := decls[i];
      DeclaredStep(decls, i);
      hide Declared;
      var problem := None;
      if Blank(d.name) { problem := Some(EmptyName); }
      else if !ValidArgType(d.typ) { problem := Some(BadType); }
      else if d.name in seen { problem := Some(Duplicate); }
      if problem.Some? {
        FirstProblemStays(decls, i + 1);
        return Err(problem.value);
      }
      seen := seen + {d.name};
      m := m[d.name := d];
    }
    assert decls[..|decls|] == decls;
    r := Ok(m);
  }

  ghost predicate WellDeclared(decls: seq<Declaration>) {
    && (forall i :: 0 <= i < |decls| ==> !Blank(decls[i].name) && ValidArgType(decls[i].typ))
    && (forall i, j :: 0 <= i < j < |decls| ==> decls[i].name != decls[j].name)
  }

  ghost predicate Declares(decls: seq<Declaration>, name: string) {
    exists i :: 0 <= i < |decls| && decls[i].name == name
  }

  lemma WellDeclaredStep(before: seq<Declaration>, d: Declaration)
    ensures WellDeclared(before + [d]) <==>
      WellDeclared(before) && !Blank(d.name) && ValidArgType(d.typ) && !Declares(before, d.name)
    ensures forall n :: Declares(before + [d], n) <==> Declares(before, n) || n == d.name
  {
    hide Blank;
    var decls := before + [d];
    assert decls[|before|] == d && forall i :: 0 <= i < |before| ==> decls[i] == before[i];
    if Declares(before, d.name) {
      var i :| 0 <= i < |before| && before[i].name == d.name;
      assert decls[i].name == decls[|before|].name;
    }
    forall n | Declares(before, n) ensures Declares(decls, n) {
      var i :| 0 <= i < |before| && before[i].name == n;
      assert decls[i].name == n;
    }
  }

  /** A list declares a set exactly when its names are nonblank and distinct and its types known;
      the set then holds each declaration under its name and nothing else. */
  lemma {:induction false} DeclaredExactly(decls: seq<Declaration>)
    ensures Declared(decls).Ok? <==> WellDeclared(decls)
    ensures Declared(decls).Ok? ==>
      && (forall i :: 0 <= i < |decls| ==> decls[i].name in Declared(decls).value && Declared(decls).value[decls[i].name] == decls[i])
      && (forall n :: n in Declared(decls).value <==> Declares(decls, n))
  {
    if decls != [] {
      var before, d := decls[..|decls| - 1], decls[|decls| - 1];
      DeclaredExactly(before);
      assert decls == before + [d];
      WellDeclaredStep(before, d);
      hide WellDeclared, Blank, ValidArgType;
      if Declared(decls).Ok? {
        forall i | 0 <= i < |before| ensures before[i].name != d.name {
          assert before[i].name in Declared(before).value;
        }
      }
    }
  }

  // ---- Resolution ----

  const MIN_INT64: int := -0x8000_0000_0000_0000
  const MAX_INT64: int := 0x7FFF_FFFF_FFFF_FFFF

  /** A raw argument value. `Integer` is a literal without fraction or exponent. */
  datatype Json = JNull | Text(text: string) | Integer(n: int) | OtherNumber(r: real) | Flag(b: bool) | Array | Object

  type RawArgs = map<string, Json>

  datatype ResolvedArg = ResolvedArg(typ: string, strVal: string, intVal: int, boolVal: bool)

  datatype Reason = Missing | ExplicitNull | Mismatch | UnknownType

  datatype ResolutionError = ResolutionError(argName: string, reason: Reason)

  function DecodeTyped(want: string, raw: Json): Result<ResolvedArg, Reason>
  {
    if want == TYPE_STRING then
      if raw.Text? then Ok(ResolvedArg(want, raw.text, 0, false)) else Err(Mismatch)
    else if want == TYPE_INT then
      if raw.Integer? && MIN_INT64 <= raw.n <= MAX_INT64 then Ok(ResolvedArg(want, "", raw.n, false)) else Err(Mismatch)
    else if want == TYPE_BOOL then
      if raw.Flag? then Ok(ResolvedArg(want, "", 0, raw.b)) else Err(Mismatch)
    else Err(UnknownType)
  }

  /** How one declaration resolves: no value for an absent optional argument. */
  function ResolveOne(d: Declaration, name: string, raw: RawArgs): Result<Option<ResolvedArg>, Reason>
  {
    if name !in raw then (if d.required then Err(Missing) else Ok(None))
    else if raw[name].JNull? then Err(ExplicitNull)
    else
      match DecodeTyped(d.typ, raw[name])
      case Ok(v) => Ok(Some(v))
      case Err(e) => Err(e)
  }

  predicate Resolvable(ds: DeclarationSet, raw: RawArgs) {
    forall name :: name in ds ==> ResolveOne(ds[name], name, raw).Ok?
  }

  /** The typed arguments: exactly the declared names that are present. */
  function Resolved(ds: DeclarationSet, raw: RawArgs): map<string, ResolvedArg>
    requires Resolvable(ds, raw)
  {
    map name | name in ds && ResolveOne(ds[name], name, raw).value.Some? :: ResolveOne(ds[name], name, raw).value.value
  }

  /** Resolves the declarations in no particular order. Whether it succeeds and the result do not
      depend on that order; only which of several problems is reported does. */
  method Resolve(ds: DeclarationSet, raw: RawArgs) returns (r: Result<map<string, ResolvedArg>, ResolutionError>)
    ensures r.Ok? <==> Resolvable(ds, raw)
    ensures r.Ok? ==> r.value == Resolved(ds, raw)
    ensures r.Err? ==> r.error.argName in ds
    ensures r.Err? ==> ResolveOne(ds[r.error.argName], r.error.argName, raw) == Err(r.error.reason)
  {
    var result: map<string, ResolvedArg> := map[];
    var todo := ds.Keys;
    while todo != {}
      invariant todo <= ds.Keys
      invariant forall name :: name in ds && name !in todo ==> ResolveOne(ds[name], name, raw).Ok?
      invariant forall name :: name in result <==>
        name in ds && name !in todo && ResolveOne(ds[name], name, raw).value.Some?
      invariant forall name :: name in result ==> result[name] == ResolveOne(ds[name], name, raw).value.value
    {
      var name :| name in todo;
      var decl := ds[name];
      todo := todo - {name};
      if name !in raw {
        if decl.required { return Err(ResolutionError(name, Missing)); }
        continue;
      }
      if raw[name].JNull? { return Err(ResolutionError(name, ExplicitNull)); }
      var decoded := DecodeTyped(decl.typ, raw[name]);
      if decoded.Err? { return Err(ResolutionError(name, decoded.error)); }
      result := result[name := decoded.value];
    }
    r := Ok(result);
  }

  /** The value `v` is what the raw argument holds, read as the declared type. */
  ghost predicate Reads(typ: string, raw: Json, v: ResolvedArg) {
    v.typ == typ &&
    match raw
    case Text(text) => typ == "string" && v.strVal == text
    case Integer(n) => typ == "int64" && -0x8000_0000_0000_0000 <= n < 0x8000_0000_0000_0000 && v.intVal == n
    case Flag(b) => typ == "bool" && v.boolVal == b
    case _ => false
  }

  /** Some value reads the raw argument as the declared type. */
  ghost predicate Readable(typ: string, raw: Json) {
    (raw.Text? && typ == "string") || (raw.Flag? && typ == "bool")
    || (raw.Integer? && typ == "int64" && -0x8000_0000_0000_0000 <= raw.n < 0x8000_0000_0000_0000)
  }

  lemma OneExactly(d: Declaration, name: string, raw: RawArgs)
    ensures ResolveOne(d, name, raw).Ok? <==> if name in raw then Readable(d.typ, raw[name]) else !d.required
    ensures ResolveOne(d, name, raw).Ok? ==>
      if name in raw then ResolveOne(d, name, raw).value.Some? && Reads(d.typ, raw[name], ResolveOne(d, name, raw).value.value)
      else ResolveOne(d, name, raw).value.None?
  {
  }

  /** Arguments resolve exactly when every declared one is present with a value of its type, or absent
      and not required; the result holds those present, each with the value given. */
  lemma ResolvedExactly(ds: DeclarationSet, raw: RawArgs)
    ensures Resolvable(ds, raw) <==>
      forall name :: name in ds ==> if name in raw then Readable(ds[name].typ, raw[name]) else !ds[name].required
    ensures Resolvable(ds, raw) ==>
      && (forall name :: name in Resolved(ds, raw) <==> name in ds && name in raw)
      && (forall name :: name in Resolved(ds, raw) ==> Reads(ds[name].typ, raw[name], Resolved(ds, raw)[name]))
  {
    forall name | name in ds
      ensures ResolveOne(ds[name], name, raw).Ok? <==> if name in raw then Readable(ds[name].typ, raw[name]) else !ds[name].required
      ensures ResolveOne(ds[name], name, raw).Ok? ==>
        if name in raw then ResolveOne(ds[name], name, raw).value.Some? && Reads(ds[name].typ, raw[name], ResolveOne(ds[name], name, raw).value.value)
        else ResolveOne(ds[name], name, raw).value.None?
    {
      OneExactly(ds[name], name, raw);
    }
    hide ResolveOne, Readable, Reads;
  }

  /** Two calls that agree on the declared names. */
  ghost predicate SameDeclared(ds: DeclarationSet, a: RawArgs, b: RawArgs) {
    forall name :: name in ds ==> (name in a <==> name in b) && (name in a ==> a[name] == b[name])
  }

  /** Undeclared arguments are invisible to resolution. */
  lemma UndeclaredInvisible(ds: DeclarationSet, a: RawArgs, b: RawArgs)
    requires SameDeclared(ds, a, b)
    ensures Resolvable(ds, a) <==> Resolvable(ds, b)
    ensures Resolvable(ds, a) ==> Resolved(ds, a) == Resolved(ds, b)
  {
    forall name | name in ds ensures ResolveOne(ds[name], name, a) == ResolveOne(ds[name], name, b) {
    }
  }

  /** What resolution promises about the values of a declared set: a result holds a name exactly
      when it is declared and present, with its declared type; null never becomes a value. */
  lemma ResolvedFacts(decls: seq<Declaration>, raw: RawArgs)
    requires Declared(decls).Ok? && Resolvable(Declared(decls).value, raw)
    ensures var ds, r := Declared(decls).value, Resolved(Declared(decls).value, raw);
      && (forall name :: name in r <==> name in ds && name in raw)
      && (forall name :: name in r ==> r[name].typ == ds[name].typ && ValidArgType(r[name].typ) && !raw[name].JNull?)
      && (forall name :: name in ds && ds[name].required ==> name in r)
  {
    var ds := Declared(decls).value;
    forall name | name in ds ensures ValidArgType(ds[name].typ) {
      DeclaredExactly(decls);
      var i :| 0 <= i < |decls| && decls[i].name == name;
    }
    hide Declared, DecodeTyped, ValidArgType;
    forall name | name in ds ensures ResolvedOne(ds[name], name, raw) { ResolveOneFacts(ds[name], name, raw); }
    hide ResolveOne;
  }

  /** What one declaration resolves to: a value of its type, from a value that is not null, or nothing
      for an absent optional argument. */
  ghost predicate ResolvedOne(d: Declaration, name: string, raw: RawArgs) {
    && ResolveOne(d, name, raw).Ok?
    && var v := ResolveOne(d, name, raw).value;
    && (v.Some? <==> name in raw) && (d.required ==> name in raw)
    && (v.Some? ==> v.value.typ == d.typ && !raw[name].JNull?)
  }

  lemma ResolveOneFacts(d: Declaration, name: string, raw: RawArgs)
    requires ResolveOne(d, name, raw).Ok?
    ensures ResolvedOne(d, name, raw)
  {
  }
}
