/**
 * The single-pass linter (pkg/linter/linter.go): it extracts every method of
 * every non-generic interface declaration, looks for evidence that each one
 * is used somewhere, and reports the rest as unused.
 *
 * The loaded packages, the ignore predicate of the configuration and
 * signature identity (types.Identical on signatures) are given to the linter
 * when it is built. Each source file is a list of the type declarations the
 * syntax walk meets, with the object the type checker defined for each name,
 * and a list of the nodes the usage walk meets, with their type information.
 */
module Linter {
  import opened Common
  import opened GoStrings
  import opened GoTypes
  import opened GoAst
  import opened LinterRender

  /** An extracted interface method: where it was declared and the resolved interface it belongs to. */
  datatype InterfaceMethod<S> = InterfaceMethod(interfaceName: string, methodName: string, signature: string,
                                                file: string, iface: seq<Method<S>>)

  /** A generic interface that was skipped, with the number of methods it declares. */
  datatype GenericWarning = GenericWarning(interfaceName: string, file: string, methodCount: nat, typeParams: string)

  /** A type spec met by the syntax walk and the type of the object defined for its name (Defs[name]), if any. */
  datatype Decl<S> = Decl(spec: TypeSpec, def: Option<Type<S>>)

  datatype SourceFile<S> = SourceFile(name: string, decls: seq<Decl<S>>, nodes: seq<Node<S>>)

  datatype Package<S> = Package(pkgPath: string, files: seq<SourceFile<S>>)

  /** What an extraction adds to the linter's two lists. */
  datatype Extraction<S> = Extraction(methods: seq<InterfaceMethod<S>>, warnings: seq<GenericWarning>)

  function Append<S>(a: Extraction<S>, b: Extraction<S>): Extraction<S>
  {
    Extraction(a.methods + b.methods, a.warnings + b.warnings)
  }

  // ---------------------------------------------------------------------
  // Extraction, as functions

  /** isGenericInterface: the spec has a non-empty type-parameter list. */
  predicate IsGenericInterface(spec: TypeSpec)
  {
    spec.typeParams.Some? && |spec.typeParams.value| > 0
  }

  /** The entries one field contributes: one per name, none for an embedded field. */
  function FieldMethods<S>(interfaceName: string, f: Field, file: string, iface: seq<Method<S>>): seq<InterfaceMethod<S>>
  {
    seq(|f.names|, k requires 0 <= k < |f.names| => InterfaceMethod(interfaceName, f.names[k], MethodSignature(f), file, iface))
  }

  /** extractMethodsFromInterface: the entries of all fields, in source order. */
  function ExtractedMethods<S>(interfaceName: string, fields: seq<Field>, file: string, iface: seq<Method<S>>): seq<InterfaceMethod<S>>
  {
    if fields == [] then []
    else ExtractedMethods(interfaceName, fields[..|fields| - 1], file, iface)
         + FieldMethods(interfaceName, fields[|fields| - 1], file, iface)
  }

  function GenericWarningFor(spec: TypeSpec, file: string): GenericWarning
    requires spec.typ.InterfaceType?
  {
    GenericWarning(spec.name, file, NameCount(spec.typ.methods), TypeParamsString(spec.typeParams))
  }

  /** What one type spec adds: a warning for a generic interface, its methods for a resolved one, nothing otherwise. */
  function DeclExtraction<S>(d: Decl<S>, file: string): Extraction<S>
  {
    if !d.spec.typ.InterfaceType? then Extraction([], [])
    else if IsGenericInterface(d.spec) then Extraction([], [GenericWarningFor(d.spec, file)])
    else if d.def.Some? && d.def.value.Named? && d.def.value.underlying.Interface? then
      Extraction(ExtractedMethods(d.spec.name, d.spec.typ.methods, file, d.def.value.underlying.methods), [])
    else Extraction([], [])
  }

  function FileExtraction<S>(decls: seq<Decl<S>>, file: string): Extraction<S>
  {
    if decls == [] then Extraction([], [])
    else Append(FileExtraction(decls[..|decls| - 1], file), DeclExtraction(decls[|decls| - 1], file))
  }

  /** shouldSkipFile: test packages are skipped whole; other files are skipped when the configuration ignores them. */
  predicate ShouldSkipFile(pkgPath: string, fileName: string, ignore: string -> bool)
  {
    HasSuffix(pkgPath, "_test") || ignore(fileName)
  }

  function PackageExtraction<S>(pkgPath: string, files: seq<SourceFile<S>>, ignore: string -> bool): Extraction<S>
  {
    if files == [] then Extraction([], [])
    else
      var f := files[|files| - 1];
      Append(PackageExtraction(pkgPath, files[..|files| - 1], ignore),
             if ShouldSkipFile(pkgPath, f.name, ignore) then Extraction([], []) else FileExtraction(f.decls, f.name))
  }

  /** ExtractInterfaceMethods: everything extracted from every file that is not skipped. */
  function AllExtraction<S>(pkgs: seq<Package<S>>, ignore: string -> bool): Extraction<S>
  {
    if pkgs == [] then Extraction([], [])
    else
      var p := pkgs[|pkgs| - 1];
      Append(AllExtraction(pkgs[..|pkgs| - 1], ignore), PackageExtraction(p.pkgPath, p.files, ignore))
  }

  // ---------------------------------------------------------------------
  // Usage evidence, as functions

  /** The receiver's interface declares a method `name` whose signature is identical to a method `name` of the original. */
  predicate SharesMethod<S>(recv: seq<Method<S>>, orig: seq<Method<S>>, name: string, eq: (S, S) -> bool)
  {
    exists i, j :: 0 <= i < |recv| && 0 <= j < |orig| && recv[i].name == name && orig[j].name == name
                   && eq(recv[i].sig, orig[j].sig)
  }

  /**
   * isMethodCallOnInterface: a selector whose operand has type `recvType`
   * reaches method `m` when the operand is of a named type with the name of
   * m's interface (only the name is compared, not the package), or of an
   * interface type identical to it, or of an interface type with a
   * same-named method of identical signature.
   */
  predicate Reaches<S>(recvType: Option<Type<S>>, m: InterfaceMethod<S>, eq: (S, S) -> bool)
  {
    match recvType
    case None => false
    case Some(t) =>
      (t.Named? && t.name == m.interfaceName)
      || (var u := Underlying(t);
          u.Interface? && (SameInterface(m.iface, u.methods, eq) || SharesMethod(u.methods, m.iface, m.methodName, eq)))
  }

  /** A selector that is not called is examined unless its operand is an unresolved identifier or a variable. */
  predicate BareSelectorExamined<S>(base: SelBase<S>)
  {
    match base
    case IdentBase(_, obj) => !obj.NoObject? && !obj.VarObject?
    case OtherBase => true
  }

  /** A field of a named type whose underlying interface is identical to m's and declares m's name. */
  predicate FieldTypeReaches<S>(t: Type<S>, m: InterfaceMethod<S>, eq: (S, S) -> bool)
  {
    t.Named? && t.underlying.Interface? && SameInterface(m.iface, t.underlying.methods, eq)
    && exists i :: 0 <= i < |t.underlying.methods| && t.underlying.methods[i].name == m.methodName
  }

  /** One node is evidence that `m` is used (the three cases of checkMethodUsageWithTypes). */
  predicate NodeEvidence<S>(n: Node<S>, m: InterfaceMethod<S>, eq: (S, S) -> bool)
  {
    match n
    case CallNode(SelectorCallee(s)) => s.sel == m.methodName && Reaches(s.baseType, m, eq)
    case CallNode(OtherCallee) => false
    case SelectorNode(s) => s.sel == m.methodName && BareSelectorExamined(s.base) && Reaches(s.baseType, m, eq)
    case FieldNode(IdentTypeRef(name, obj)) => name == m.interfaceName && obj.TypeNameObject? && FieldTypeReaches(obj.typ, m, eq)
    case FieldNode(OtherTypeRef) => false
    case OtherNode => false
  }

  predicate UsedInFile<S>(nodes: seq<Node<S>>, m: InterfaceMethod<S>, eq: (S, S) -> bool)
  {
    exists i :: 0 <= i < |nodes| && NodeEvidence(nodes[i], m, eq)
  }

  /** isMethodUsed: some file that is not skipped holds evidence for `m`. */
  predicate MethodUsed<S>(pkgs: seq<Package<S>>, ignore: string -> bool, m: InterfaceMethod<S>, eq: (S, S) -> bool)
  {
    exists p, f :: 0 <= p < |pkgs| && 0 <= f < |pkgs[p].files|
                   && !ShouldSkipFile(pkgs[p].pkgPath, pkgs[p].files[f].name, ignore)
                   && UsedInFile(pkgs[p].files[f].nodes, m, eq)
  }

  /** The methods that no file uses, in their original order. */
  function UnusedAmong<S>(ms: seq<InterfaceMethod<S>>, pkgs: seq<Package<S>>, ignore: string -> bool, eq: (S, S) -> bool)
    : seq<InterfaceMethod<S>>
  {
    if ms == [] then []
    else
      var x := ms[|ms| - 1];
      UnusedAmong(ms[..|ms| - 1], pkgs, ignore, eq) + (if MethodUsed(pkgs, ignore, x, eq) then [] else [x])
  }

  /** The elements of `ms` outside `used`, in their original order. */
  function Outside<T>(ms: seq<T>, used: iset<T>): seq<T>
  {
    if ms == [] then []
    else
      var x := ms[|ms| - 1];
      Outside(ms[..|ms| - 1], used) + (if x in used then [] else [x])
  }

  /** `used` holds exactly the methods that some kept file uses. */
  ghost predicate UsedVerdicts<S(!new)>(used: iset<InterfaceMethod<S>>, pkgs: seq<Package<S>>, ignore: string -> bool,
                                  eq: (S, S) -> bool)
  {
    forall m {:trigger MethodUsed(pkgs, ignore, m, eq)} :: m in used <==> MethodUsed(pkgs, ignore, m, eq)
  }

  /** The methods that belong to one of the interfaces named in `names`. */
  function InInterfaces<S>(ms: seq<InterfaceMethod<S>>, names: set<string>): seq<InterfaceMethod<S>>
  {
    if ms == [] then []
    else
      var x := ms[|ms| - 1];
      InInterfaces(ms[..|ms| - 1], names) + (if x.interfaceName in names then [x] else [])
  }

  /** The methods of interface `name`, in their original order: one group of the interface map. */
  function MethodsOf<S>(ms: seq<InterfaceMethod<S>>, name: string): seq<InterfaceMethod<S>>
  {
    if ms == [] then []
    else
      var x := ms[|ms| - 1];
      MethodsOf(ms[..|ms| - 1], name) + (if x.interfaceName == name then [x] else [])
  }

  function InterfaceNames<S>(ms: seq<InterfaceMethod<S>>): set<string>
  {
    set i | 0 <= i < |ms| :: ms[i].interfaceName
  }

  function TotalMethodCount(ws: seq<GenericWarning>): nat
  {
    if ws == [] then 0 else TotalMethodCount(ws[..|ws| - 1]) + ws[|ws| - 1].methodCount
  }

  // ---------------------------------------------------------------------
  // The linter

  class UnusedMethodLinter<S(!new)> {
    const packages: seq<Package<S>>
    const ignore: string -> bool
    const identical: (S, S) -> bool
    var methods: seq<InterfaceMethod<S>>
    var genericWarnings: seq<GenericWarning>

    /** New, with the packages LoadPackages would have kept. */
    constructor (packages: seq<Package<S>>, ignore: string -> bool, identical: (S, S) -> bool)
      ensures this.packages == packages && this.ignore == ignore && this.identical == identical
      ensures methods == [] && genericWarnings == []
    {
      this.packages := packages;
      this.ignore := ignore;
      this.identical := identical;
      methods := [];
      genericWarnings := [];
    }

    /** addGenericWarning: one warning whose method count ignores embedded fields. */
    method AddGenericWarning(spec: TypeSpec, file: string)
      requires spec.typ.InterfaceType?
      modifies this
      ensures genericWarnings == old(genericWarnings) + [GenericWarningFor(spec, file)]
      ensures methods == old(methods)
    {
      var fields := spec.typ.methods;
      var methodCount := 0;
      var i := 0;
      while i < |fields|
        invariant 0 <= i <= |fields|
        invariant methodCount == NameCount(fields[..i])
      {
        assert fields[..i + 1][..i] == fields[..i];
        if |fields[i].names| > 0 {
          methodCount := methodCount + |fields[i].names|;
        }
        i := i + 1;
      }
      assert fields[..i] == fields;
      var typeParams := TypeParamsString(spec.typeParams);
      genericWarnings := genericWarnings + [GenericWarning(spec.name, file, methodCount, typeParams)];
    }

    /** extractMethodsFromInterface: appends one entry per method name, after the existing ones. */
    method ExtractMethodsFromInterface(interfaceName: string, fields: seq<Field>, iface: seq<Method<S>>, file: string)
      modifies this
      ensures methods == old(methods) + ExtractedMethods(interfaceName, fields, file, iface)
      ensures genericWarnings == old(genericWarnings)
    {
      var i := 0;
      while i < |fields|
        invariant 0 <= i <= |fields|
        invariant methods == old(methods) + ExtractedMethods(interfaceName, fields[..i], file, iface)
        invariant genericWarnings == old(genericWarnings)
      {
        assert fields[..i + 1][..i] == fields[..i];
        var f := fields[i];
        if |f.names| == 0 {
          i := i + 1;
          continue;
        }
        var entries := FieldMethods(interfaceName, f, file, iface);
        var j := 0;
        while j < |f.names|
          invariant 0 <= j <= |f.names|
          invariant methods == old(methods) + ExtractedMethods(interfaceName, fields[..i], file, iface) + entries[..j]
          invariant genericWarnings == old(genericWarnings)
        {
          var signature := MethodSignature(f);
          methods := methods + [InterfaceMethod(interfaceName, f.names[j], signature, file, iface)];
          assert entries[..j + 1] == entries[..j] + [entries[j]];
          j := j + 1;
        }
        i := i + 1;
      }
      assert fields[..i] == fields;
    }

    /** ExtractInterfaceMethodsFromFile: walks the file's type specs in order. */
    method ExtractInterfaceMethodsFromFile(decls: seq<Decl<S>>, file: string)
      modifies this
      ensures methods == old(methods) + FileExtraction(decls, file).methods
      ensures genericWarnings == old(genericWarnings) + FileExtraction(decls, file).warnings
    {
      var i := 0;
      while i < |decls|
        invariant 0 <= i <= |decls|
        invariant methods == old(methods) + FileExtraction(decls[..i], file).methods
        invariant genericWarnings == old(genericWarnings) + FileExtraction(decls[..i], file).warnings
      {
        ghost var before := FileExtraction(decls[..i], file);
        ghost var added := DeclExtraction(decls[i], file);
        FileExtractionStep(decls, i, file);
        ExtractDecl(decls[i], file);
        ConcatAssoc(old(methods), before.methods, added.methods);
        ConcatAssoc(old(genericWarnings), before.warnings, added.warnings);
        i := i + 1;
      }
      assert decls[..i] == decls;
    }

    /** The body of ExtractInterfaceMethodsFromFile for one type spec. */
    method ExtractDecl(d: Decl<S>, file: string)
      modifies this
      ensures methods == old(methods) + DeclExtraction(d, file).methods
      ensures genericWarnings == old(genericWarnings) + DeclExtraction(d, file).warnings
    {
      if d.spec.typ.InterfaceType? {
        if IsGenericInterface(d.spec) {
          AddGenericWarning(d.spec, file);
        } else if d.def.Some? && d.def.value.Named? && d.def.value.underlying.Interface? {
          ExtractMethodsFromInterface(d.spec.name, d.spec.typ.methods, d.def.value.underlying.methods, file);
        }
      }
    }

    /** ExtractInterfaceMethods: every file of every package, except the skipped ones. */
    method ExtractInterfaceMethods()
      modifies this
      ensures methods == old(methods) + AllExtraction(packages, ignore).methods
      ensures genericWarnings == old(genericWarnings) + AllExtraction(packages, ignore).warnings
    {
      var pkgs := packages;
      var p := 0;
      while p < |pkgs|
        invariant 0 <= p <= |pkgs|
        invariant methods == old(methods) + AllExtraction(pkgs[..p], ignore).methods
        invariant genericWarnings == old(genericWarnings) + AllExtraction(pkgs[..p], ignore).warnings
      {
        ghost var before := AllExtraction(pkgs[..p], ignore);
        ghost var added := PackageExtraction(pkgs[p].pkgPath, pkgs[p].files, ignore);
        AllExtractionStep(pkgs, p, ignore);
        ExtractPackage(pkgs[p]);
        ConcatAssoc(old(methods), before.methods, added.methods);
        ConcatAssoc(old(genericWarnings), before.warnings, added.warnings);
        p := p + 1;
      }
      assert pkgs[..p] == pkgs;
    }

    /** The body of ExtractInterfaceMethods for one package. */
    method ExtractPackage(pkg: Package<S>)
      modifies this
      ensures methods == old(methods) + PackageExtraction(pkg.pkgPath, pkg.files, ignore).methods
      ensures genericWarnings == old(genericWarnings) + PackageExtraction(pkg.pkgPath, pkg.files, ignore).warnings
    {
      var files := pkg.files;
      var f := 0;
      while f < |files|
        invariant 0 <= f <= |files|
        invariant methods == old(methods) + PackageExtraction(pkg.pkgPath, files[..f], ignore).methods
        invariant genericWarnings == old(genericWarnings) + PackageExtraction(pkg.pkgPath, files[..f], ignore).warnings
      {
        var file := files[f];
        var skip := ShouldSkipFile(pkg.pkgPath, file.name, ignore);
        ghost var before := PackageExtraction(pkg.pkgPath, files[..f], ignore);
        ghost var added := if skip then Extraction([], []) else FileExtraction(file.decls, file.name);
        PackageExtractionStep(pkg.pkgPath, files, f, ignore);
        if !skip {
          ExtractInterfaceMethodsFromFile(file.decls, file.name);
        }
        ConcatAssoc(old(methods), before.methods, added.methods);
        ConcatAssoc(old(genericWarnings), before.warnings, added.warnings);
        f := f + 1;
      }
      assert files[..f] == files;
    }

    /** isSameInterface: equal method counts, and each method of `a` found by name and identical signature in `b`. */
    method IsSameInterface(a: seq<Method<S>>, b: seq<Method<S>>) returns (same: bool)
      ensures same == SameInterface(a, b, identical)
    {
      if |a| != |b| {
        return false;
      }
      var i := 0;
      while i < |a|
        invariant 0 <= i <= |a|
        invariant forall k :: 0 <= k < i ==> HasMatch(a[k], b, identical)
      {
        var found := false;
        var j := 0;
        while j < |b|
          invariant 0 <= j <= |b|
          invariant !found
          invariant forall k :: 0 <= k < j ==> !(b[k].name == a[i].name && identical(a[i].sig, b[k].sig))
        {
          if a[i].name == b[j].name && identical(a[i].sig, b[j].sig) {
            found := true;
            break;
          }
          j := j + 1;
        }
        if !found {
          assert !HasMatch(a[i], b, identical);
          return false;
        }
        i := i + 1;
      }
      return true;
    }

    /** isMethodCallOnInterface, on the operand type the type checker recorded for the selector. */
    method IsMethodCallOnInterface(sel: SelectorExpr<S>, m: InterfaceMethod<S>) returns (r: bool)
      ensures r == Reaches(sel.baseType, m, identical)
    {
      if sel.baseType.None? {
        return false;
      }
      var t := sel.baseType.value;
      if t.Named? {
        if t.name == m.interfaceName {
          return true;
        }
        t := t.underlying;
      }
      if !t.Interface? {
        return false;
      }
      var same := IsSameInterface(m.iface, t.methods);
      if same {
        return true;
      }
      var recv := t.methods;
      var i := 0;
      while i < |recv|
        invariant 0 <= i <= |recv|
        invariant forall i', j :: 0 <= i' < i && 0 <= j < |m.iface| ==>
                    !(recv[i'].name == m.methodName && m.iface[j].name == m.methodName && identical(recv[i'].sig, m.iface[j].sig))
      {
        if recv[i].name == m.methodName {
          var j := 0;
          while j < |m.iface|
            invariant 0 <= j <= |m.iface|
            invariant forall j' :: 0 <= j' < j ==> !(m.iface[j'].name == m.methodName && identical(recv[i].sig, m.iface[j'].sig))
          {
            if m.iface[j].name == m.methodName && identical(recv[i].sig, m.iface[j].sig) {
              return true;
            }
            j := j + 1;
          }
        }
        i := i + 1;
      }
      return false;
    }

    /** checkMethodUsageWithTypes: walks the file's nodes until one is evidence for `m`. */
    method CheckMethodUsageWithTypes(nodes: seq<Node<S>>, m: InterfaceMethod<S>) returns (found: bool)
      ensures found == UsedInFile(nodes, m, identical)
    {
      found := false;
      var i := 0;
      while i < |nodes| && !found
        invariant 0 <= i <= |nodes|
        invariant found ==> UsedInFile(nodes, m, identical)
        invariant !found ==> forall k :: 0 <= k < i ==> !NodeEvidence(nodes[k], m, identical)
        decreases |nodes| - i + (if found then 0 else 1)
      {
        match nodes[i] {
          case CallNode(fun) =>
            if fun.SelectorCallee? && fun.s.sel == m.methodName {
              found := IsMethodCallOnInterface(fun.s, m);
            }
          case SelectorNode(s) =>
            if s.sel == m.methodName {
              match s.base {
                case IdentBase(_, obj) =>
                  if !obj.NoObject? && !obj.VarObject? {
                    found := IsMethodCallOnInterface(s, m);
                  }
                case OtherBase =>
                  found := IsMethodCallOnInterface(s, m);
              }
            }
          case FieldNode(typ) =>
            if typ.IdentTypeRef? && typ.name == m.interfaceName && typ.obj.TypeNameObject? {
              var t := typ.obj.typ;
              if t.Named? && t.underlying.Interface? {
                var same := IsSameInterface(m.iface, t.underlying.methods);
                if same {
                  var ms := t.underlying.methods;
                  var k := 0;
                  while k < |ms| && !found
                    invariant 0 <= k <= |ms|
                    invariant found <==> exists k' :: 0 <= k' < k && ms[k'].name == m.methodName
                  {
                    if ms[k].name == m.methodName {
                      found := true;
                    }
                    k := k + 1;
                  }
                }
              }
            }
          case OtherNode =>
        }
        if !found {
          i := i + 1;
        }
      }
    }

    /** isMethodUsed: the first file that is not skipped and holds evidence decides. */
    method IsMethodUsed(m: InterfaceMethod<S>) returns (used: bool)
      ensures used == MethodUsed(packages, ignore, m, identical)
    {
      var p := 0;
      while p < |packages|
        invariant 0 <= p <= |packages|
        invariant forall p', f :: 0 <= p' < p && 0 <= f < |packages[p'].files| ==>
                    ShouldSkipFile(packages[p'].pkgPath, packages[p'].files[f].name, ignore)
                    || !UsedInFile(packages[p'].files[f].nodes, m, identical)
      {
        var pkg := packages[p];
        var f := 0;
        while f < |pkg.files|
          invariant 0 <= f <= |pkg.files|
          invariant forall f' :: 0 <= f' < f ==>
                      ShouldSkipFile(pkg.pkgPath, pkg.files[f'].name, ignore) || !UsedInFile(pkg.files[f'].nodes, m, identical)
        {
          var file := pkg.files[f];
          if !ShouldSkipFile(pkg.pkgPath, file.name, ignore) {
            var found := CheckMethodUsageWithTypes(file.nodes, m);
            if found {
              return true;
            }
          }
          f := f + 1;
        }
        p := p + 1;
      }
      return false;
    }

    /**
     * FindUnusedMethods: groups the methods by interface name, visits the
     * groups in an unspecified order and classifies every method as used or
     * unused. Returns whether nothing is unused, the methods reported as
     * UNUSED, both counts and the number of methods skipped in generic
     * interfaces.
     */
    method FindUnusedMethods() returns (ok: bool, unused: seq<InterfaceMethod<S>>, usedCount: nat, unusedCount: nat,
                                        skipped: nat)
      ensures usedCount + unusedCount == |methods|
      ensures unusedCount == |unused|
      ensures multiset(unused) == multiset(UnusedAmong(methods, packages, ignore, identical))
      ensures ok <==> forall i :: 0 <= i < |methods| ==> MethodUsed(packages, ignore, methods[i], identical)
      ensures skipped == TotalMethodCount(genericWarnings)
    {
      var interfaceMap := GroupByInterface(methods);
      ghost var used := iset m | MethodUsed(packages, ignore, m, identical);
      unused, usedCount := ClassifyGroups(methods, interfaceMap, used);
      OutsideIsUnused(methods, used, packages, ignore, identical);
      unusedCount := |unused|;
      skipped := SkippedInGenerics();
      ok := unusedCount == 0;
      UnusedAmongEmpty(methods, packages, ignore, identical);
    }

    /**
     * The outer loop of FindUnusedMethods: every group of the interface map, in
     * an unspecified order. `used` holds the methods some kept file uses.
     */
    method ClassifyGroups(ghost ms: seq<InterfaceMethod<S>>, interfaceMap: map<string, seq<InterfaceMethod<S>>>,
                          ghost used: iset<InterfaceMethod<S>>)
      returns (unused: seq<InterfaceMethod<S>>, usedCount: nat)
      requires UsedVerdicts(used, packages, ignore, identical)
      requires forall i :: 0 <= i < |ms| ==> ms[i].interfaceName in interfaceMap
      requires forall k :: k in interfaceMap ==> interfaceMap[k] == MethodsOf(ms, k)
      ensures usedCount + |unused| == |ms|
      ensures multiset(unused) == multiset(Outside(ms, used))
    {
      unused := [];
      usedCount := 0;
      var remaining := interfaceMap.Keys;
      ghost var done: set<string> := {};
      InInterfacesNone(ms);
      while remaining != {}
        invariant remaining + done == interfaceMap.Keys && remaining !! done
        invariant usedCount + |unused| == |InInterfaces(ms, done)|
        invariant multiset(unused) == multiset(Outside(InInterfaces(ms, done), used))
        decreases |remaining|
      {
        var name :| name in remaining;
        unused, usedCount := VisitGroup(ms, done, name, interfaceMap[name], used, unused, usedCount);
        remaining := remaining - {name};
        done := done + {name};
      }
      InInterfacesAll(ms, done);
    }

    /** One turn of ClassifyGroups' loop: classifies one more group and adds it to what was visited. */
    method VisitGroup(ghost ms: seq<InterfaceMethod<S>>, ghost done: set<string>, ghost name: string,
                      group: seq<InterfaceMethod<S>>, ghost used: iset<InterfaceMethod<S>>,
                      unused: seq<InterfaceMethod<S>>, usedCount: nat)
      returns (unused': seq<InterfaceMethod<S>>, usedCount': nat)
      requires UsedVerdicts(used, packages, ignore, identical)
      requires name !in done && group == MethodsOf(ms, name)
      requires usedCount + |unused| == |InInterfaces(ms, done)|
      requires multiset(unused) == multiset(Outside(InInterfaces(ms, done), used))
      ensures usedCount' + |unused'| == |InInterfaces(ms, done + {name})|
      ensures multiset(unused') == multiset(Outside(InInterfaces(ms, done + {name}), used))
    {
      var groupUnused, groupUsed := ClassifyGroup(group);
      OutsideIsUnused(group, used, packages, ignore, identical);
      GroupSplit(ms, done, name, used);
      unused' := unused + groupUnused;
      usedCount' := usedCount + groupUsed;
    }

    /** The interface map of FindUnusedMethods: each interface name to its methods, in their original order. */
    static method GroupByInterface(ms: seq<InterfaceMethod<S>>) returns (interfaceMap: map<string, seq<InterfaceMethod<S>>>)
      ensures interfaceMap.Keys == InterfaceNames(ms)
      ensures forall k :: k in interfaceMap ==> interfaceMap[k] == MethodsOf(ms, k)
    {
      interfaceMap := map[];
      var i := 0;
      while i < |ms|
        invariant 0 <= i <= |ms|
        invariant interfaceMap.Keys == InterfaceNames(ms[..i])
        invariant forall k :: k in interfaceMap ==> interfaceMap[k] == MethodsOf(ms[..i], k)
      {
        var x := ms[i];
        assert ms[..i + 1][..i] == ms[..i];
        assert InterfaceNames(ms[..i + 1]) == InterfaceNames(ms[..i]) + {x.interfaceName};
        if x.interfaceName !in interfaceMap {
          MethodsOfAbsent(ms[..i], x.interfaceName);
        }
        var group := if x.interfaceName in interfaceMap then interfaceMap[x.interfaceName] else [];
        interfaceMap := interfaceMap[x.interfaceName := group + [x]];
        i := i + 1;
      }
      assert ms[..i] == ms;
    }

    /** The inner loop of FindUnusedMethods: the unused methods of one group, in order, and the number used. */
    method ClassifyGroup(group: seq<InterfaceMethod<S>>) returns (unused: seq<InterfaceMethod<S>>, usedCount: nat)
      ensures unused == UnusedAmong(group, packages, ignore, identical)
      ensures usedCount + |unused| == |group|
    {
      unused := [];
      usedCount := 0;
      var j := 0;
      while j < |group|
        invariant 0 <= j <= |group|
        invariant unused == UnusedAmong(group[..j], packages, ignore, identical)
        invariant usedCount + |unused| == j
      {
        assert group[..j + 1][..j] == group[..j];
        var used := IsMethodUsed(group[j]);
        if !used {
          unused := unused + [group[j]];
        } else {
          usedCount := usedCount + 1;
        }
        j := j + 1;
      }
      assert group[..j] == group;
    }

    /** The number of methods left unanalysed in generic interfaces. */
    method SkippedInGenerics() returns (skipped: nat)
      ensures skipped == TotalMethodCount(genericWarnings)
    {
      skipped := 0;
      var w := 0;
      while w < |genericWarnings|
        invariant 0 <= w <= |genericWarnings|
        invariant skipped == TotalMethodCount(genericWarnings[..w])
      {
        assert genericWarnings[..w + 1][..w] == genericWarnings[..w];
        skipped := skipped + genericWarnings[w].methodCount;
        w := w + 1;
      }
      assert genericWarnings[..w] == genericWarnings;
    }
  }

  // ---------------------------------------------------------------------
  // Lemmas about the classification

  /** The extraction of one more package appends that package's extraction. */
  lemma AllExtractionStep<S>(pkgs: seq<Package<S>>, p: nat, ignore: string -> bool)
    requires p < |pkgs|
    ensures AllExtraction(pkgs[..p + 1], ignore)
            == Append(AllExtraction(pkgs[..p], ignore), PackageExtraction(pkgs[p].pkgPath, pkgs[p].files, ignore))
  {
    assert pkgs[..p + 1][..p] == pkgs[..p];
  }

  lemma PackageExtractionStep<S>(pkgPath: string, files: seq<SourceFile<S>>, f: nat, ignore: string -> bool)
    requires f < |files|
    ensures PackageExtraction(pkgPath, files[..f + 1], ignore)
            == Append(PackageExtraction(pkgPath, files[..f], ignore),
                      if ShouldSkipFile(pkgPath, files[f].name, ignore) then Extraction([], []) else FileExtraction(files[f].decls, files[f].name))
  {
    assert files[..f + 1][..f] == files[..f];
  }

  lemma FileExtractionStep<S>(decls: seq<Decl<S>>, i: nat, file: string)
    requires i < |decls|
    ensures FileExtraction(decls[..i + 1], file) == Append(FileExtraction(decls[..i], file), DeclExtraction(decls[i], file))
  {
    assert decls[..i + 1][..i] == decls[..i];
  }

  lemma {:induction false} MethodsOfAbsent<S>(ms: seq<InterfaceMethod<S>>, name: string)
    requires name !in InterfaceNames(ms)
    ensures MethodsOf(ms, name) == []
  {
    if ms != [] {
      var init := ms[..|ms| - 1];
      assert InterfaceNames(init) <= InterfaceNames(ms) by {
        forall n | n in InterfaceNames(init) ensures n in InterfaceNames(ms) {
          var k :| 0 <= k < |init| && init[k].interfaceName == n;
          assert ms[k].interfaceName == n;
        }
      }
      MethodsOfAbsent(init, name);
      assert ms[|ms| - 1].interfaceName in InterfaceNames(ms);
    }
  }

  /** Adding one interface group to the visited ones adds exactly that group's methods, and its unused ones. */
  lemma {:induction false} GroupSplit<S>(ms: seq<InterfaceMethod<S>>, done: set<string>, name: string,
                                         used: iset<InterfaceMethod<S>>)
    requires name !in done
    ensures |InInterfaces(ms, done + {name})| == |InInterfaces(ms, done)| + |MethodsOf(ms, name)|
    ensures multiset(Outside(InInterfaces(ms, done + {name}), used))
            == multiset(Outside(InInterfaces(ms, done), used)) + multiset(Outside(MethodsOf(ms, name), used))
  {
    if ms != [] {
      var init := ms[..|ms| - 1];
      var x := ms[|ms| - 1];
      GroupSplit(init, done, name, used);
      var all := InInterfaces(init, done + {name});
      var old_ := InInterfaces(init, done);
      var grp := MethodsOf(init, name);
      var tail := if x in used then [] else [x];
      if x.interfaceName == name {
        assert InInterfaces(ms, done + {name}) == all + [x];
        assert InInterfaces(ms, done) == old_;
        assert MethodsOf(ms, name) == grp + [x];
        OutsideSnoc(all, x, used);
        OutsideSnoc(grp, x, used);
        MultisetSnocRight(Outside(all, used), Outside(old_, used), Outside(grp, used), tail);
      } else if x.interfaceName in done {
        assert InInterfaces(ms, done + {name}) == all + [x];
        assert InInterfaces(ms, done) == old_ + [x];
        assert MethodsOf(ms, name) == grp;
        OutsideSnoc(all, x, used);
        OutsideSnoc(old_, x, used);
        MultisetSnocLeft(Outside(all, used), Outside(old_, used), Outside(grp, used), tail);
      } else {
        assert InInterfaces(ms, done + {name}) == all;
        assert InInterfaces(ms, done) == old_;
        assert MethodsOf(ms, name) == grp;
      }
    }
  }

  lemma OutsideSnoc<T>(ms: seq<T>, x: T, used: iset<T>)
    ensures Outside(ms + [x], used) == Outside(ms, used) + (if x in used then [] else [x])
  {
    assert (ms + [x])[..|ms|] == ms;
  }

  /** With `used` holding exactly the used methods, the methods outside it are the unused ones. */
  lemma {:induction false} OutsideIsUnused<S(!new)>(ms: seq<InterfaceMethod<S>>, used: iset<InterfaceMethod<S>>,
                                              pkgs: seq<Package<S>>, ignore: string -> bool, eq: (S, S) -> bool)
    requires UsedVerdicts(used, pkgs, ignore, eq)
    ensures Outside(ms, used) == UnusedAmong(ms, pkgs, ignore, eq)
  {
    if ms != [] {
      OutsideIsUnused(ms[..|ms| - 1], used, pkgs, ignore, eq);
      assert ms[|ms| - 1] in used <==> MethodUsed(pkgs, ignore, ms[|ms| - 1], eq);
    }
  }

  lemma MultisetSnocRight<T>(a: seq<T>, o: seq<T>, g: seq<T>, t: seq<T>)
    requires multiset(a) == multiset(o) + multiset(g)
    ensures multiset(a + t) == multiset(o) + multiset(g + t)
  {
  }

  lemma MultisetSnocLeft<T>(a: seq<T>, o: seq<T>, g: seq<T>, t: seq<T>)
    requires multiset(a) == multiset(o) + multiset(g)
    ensures multiset(a + t) == multiset(o + t) + multiset(g)
  {
  }

  lemma {:induction false} InInterfacesNone<S>(ms: seq<InterfaceMethod<S>>)
    ensures InInterfaces(ms, {}) == []
  {
    if ms != [] {
      InInterfacesNone(ms[..|ms| - 1]);
    }
  }

  /** Once every interface has been visited, every method has been. */
  lemma {:induction false} InInterfacesAll<S>(ms: seq<InterfaceMethod<S>>, names: set<string>)
    requires forall i :: 0 <= i < |ms| ==> ms[i].interfaceName in names
    ensures InInterfaces(ms, names) == ms
  {
    if ms != [] {
      var init := ms[..|ms| - 1];
      InInterfacesAll(init, names);
      assert init + [ms[|ms| - 1]] == ms;
    }
  }

  /** A method is reported unused exactly when it was extracted and no file uses it. */
  lemma {:induction false} UnusedAmongMembers<S>(ms: seq<InterfaceMethod<S>>, pkgs: seq<Package<S>>, ignore: string -> bool,
                                                 eq: (S, S) -> bool)
    ensures forall x :: x in UnusedAmong(ms, pkgs, ignore, eq) <==> x in ms && !MethodUsed(pkgs, ignore, x, eq)
  {
    if ms != [] {
      var init := ms[..|ms| - 1];
      UnusedAmongMembers(init, pkgs, ignore, eq);
      assert ms == init + [ms[|ms| - 1]];
    }
  }

  /** Nothing is reported unused exactly when every method is used. */
  lemma UnusedAmongEmpty<S>(ms: seq<InterfaceMethod<S>>, pkgs: seq<Package<S>>, ignore: string -> bool, eq: (S, S) -> bool)
    ensures |UnusedAmong(ms, pkgs, ignore, eq)| == 0 <==> forall i :: 0 <= i < |ms| ==> MethodUsed(pkgs, ignore, ms[i], eq)
  {
    UnusedAmongMembers(ms, pkgs, ignore, eq);
    if |UnusedAmong(ms, pkgs, ignore, eq)| != 0 {
      assert UnusedAmong(ms, pkgs, ignore, eq)[0] in UnusedAmong(ms, pkgs, ignore, eq);
    }
    if exists i :: 0 <= i < |ms| && !MethodUsed(pkgs, ignore, ms[i], eq) {
      var i :| 0 <= i < |ms| && !MethodUsed(pkgs, ignore, ms[i], eq);
      assert ms[i] in UnusedAmong(ms, pkgs, ignore, eq);
    }
  }

  // ---------------------------------------------------------------------
  // Lemmas about extraction

  /**
   * extractMethodsFromInterface adds exactly one entry per declared name, in
   * source order, each naming its interface and carrying its resolved type.
   */
  lemma {:induction false} ExtractedMethodsFollowNames<S>(interfaceName: string, fields: seq<Field>, file: string,
                                                          iface: seq<Method<S>>)
    ensures var r := ExtractedMethods(interfaceName, fields, file, iface);
            && |r| == |AllNames(fields)|
            && forall k :: 0 <= k < |r| ==> r[k].methodName == AllNames(fields)[k]
                                            && r[k].interfaceName == interfaceName && r[k].file == file && r[k].iface == iface
  {
    if fields != [] {
      ExtractedMethodsFollowNames(interfaceName, fields[..|fields| - 1], file, iface);
    }
  }

  /** An embedded field adds neither entries nor to a generic interface's method count. */
  lemma EmbeddedFieldAddsNothing<S>(interfaceName: string, fields: seq<Field>, embedded: TypeExpr, file: string,
                                    iface: seq<Method<S>>)
    ensures ExtractedMethods(interfaceName, fields + [Field([], embedded)], file, iface)
            == ExtractedMethods(interfaceName, fields, file, iface)
    ensures NameCount(fields + [Field([], embedded)]) == NameCount(fields)
  {
    assert (fields + [Field([], embedded)])[..|fields|] == fields;
  }

  /**
   * A generic interface yields one warning, counting every declared method
   * name, and no method entries; a non-generic one yields no warning.
   */
  lemma GenericInterfaceOnlyWarns<S>(d: Decl<S>, file: string)
    requires d.spec.typ.InterfaceType?
    ensures IsGenericInterface(d.spec) ==>
              && DeclExtraction(d, file).methods == []
              && DeclExtraction(d, file).warnings == [GenericWarning(d.spec.name, file, |AllNames(d.spec.typ.methods)|,
                                                                     TypeParamsString(d.spec.typeParams))]
    ensures !IsGenericInterface(d.spec) ==> DeclExtraction(d, file).warnings == []
  {
    AllNamesLength(d.spec.typ.methods);
  }

  /** Every extracted method was declared in a file that is not skipped. */
  lemma {:induction false} ExtractedFromKeptFiles<S>(pkgs: seq<Package<S>>, ignore: string -> bool)
    ensures forall x :: x in AllExtraction(pkgs, ignore).methods ==>
              exists p, f :: 0 <= p < |pkgs| && 0 <= f < |pkgs[p].files|
                             && !ShouldSkipFile(pkgs[p].pkgPath, pkgs[p].files[f].name, ignore)
                             && x.file == pkgs[p].files[f].name
  {
    if pkgs != [] {
      var init := pkgs[..|pkgs| - 1];
      var last := pkgs[|pkgs| - 1];
      ExtractedFromKeptFiles(init, ignore);
      PackageFromKeptFiles(last.pkgPath, last.files, ignore);
      forall x | x in AllExtraction(pkgs, ignore).methods
        ensures exists p, f :: 0 <= p < |pkgs| && 0 <= f < |pkgs[p].files|
                               && !ShouldSkipFile(pkgs[p].pkgPath, pkgs[p].files[f].name, ignore)
                               && x.file == pkgs[p].files[f].name
      {
        if x in AllExtraction(init, ignore).methods {
          var p, f :| 0 <= p < |init| && 0 <= f < |init[p].files|
                      && !ShouldSkipFile(init[p].pkgPath, init[p].files[f].name, ignore)
                      && x.file == init[p].files[f].name;
          assert pkgs[p] == init[p];
        } else {
          var f :| 0 <= f < |last.files| && !ShouldSkipFile(last.pkgPath, last.files[f].name, ignore)
                   && x.file == last.files[f].name;
          assert pkgs[|pkgs| - 1] == last;
        }
      }
    }
  }

  lemma {:induction false} PackageFromKeptFiles<S>(pkgPath: string, files: seq<SourceFile<S>>, ignore: string -> bool)
    ensures forall x :: x in PackageExtraction(pkgPath, files, ignore).methods ==>
              exists f :: 0 <= f < |files| && !ShouldSkipFile(pkgPath, files[f].name, ignore) && x.file == files[f].name
  {
    if files != [] {
      var init := files[..|files| - 1];
      var last := files[|files| - 1];
      PackageFromKeptFiles(pkgPath, init, ignore);
      if !ShouldSkipFile(pkgPath, last.name, ignore) {
        FileMethodsInFile(last.decls, last.name);
      }
      forall x | x in PackageExtraction(pkgPath, files, ignore).methods
        ensures exists f :: 0 <= f < |files| && !ShouldSkipFile(pkgPath, files[f].name, ignore) && x.file == files[f].name
      {
        if x in PackageExtraction(pkgPath, init, ignore).methods {
          var f :| 0 <= f < |init| && !ShouldSkipFile(pkgPath, init[f].name, ignore) && x.file == init[f].name;
          assert files[f] == init[f];
        } else {
          assert files[|files| - 1] == last;
        }
      }
    }
  }

  lemma {:induction false} FileMethodsInFile<S>(decls: seq<Decl<S>>, file: string)
    ensures forall x :: x in FileExtraction(decls, file).methods ==> x.file == file
  {
    if decls != [] {
      FileMethodsInFile(decls[..|decls| - 1], file);
      var d := decls[|decls| - 1];
      if d.spec.typ.InterfaceType? && !IsGenericInterface(d.spec) && d.def.Some? && d.def.value.Named?
         && d.def.value.underlying.Interface? {
        ExtractedMethodsFollowNames(d.spec.name, d.spec.typ.methods, file, d.def.value.underlying.methods);
      }
    }
  }

  // ---------------------------------------------------------------------
  // Lemmas about usage evidence

  /** shouldSkipFile: a test package is skipped whatever the configuration says; otherwise the configuration decides. */
  lemma ShouldSkipFileCases(pkgPath: string, fileName: string, ignore: string -> bool)
    ensures HasSuffix(pkgPath, "_test") ==> ShouldSkipFile(pkgPath, fileName, ignore)
    ensures !HasSuffix(pkgPath, "_test") ==> (ShouldSkipFile(pkgPath, fileName, ignore) <==> ignore(fileName))
  {
  }

  /** The two cases on a test package and its non-test counterpart. */
  lemma ShouldSkipFileExamples(fileName: string, ignore: string -> bool)
    ensures ShouldSkipFile("example.com/myapp_test", fileName, ignore)
    ensures ShouldSkipFile("example.com/myapp", fileName, ignore) == ignore(fileName)
  {
    assert "example.com/myapp_test"[|"example.com/myapp_test"| - 5..] == "_test";
    assert "example.com/myapp"[|"example.com/myapp"| - 5..] != "_test";
    ShouldSkipFileCases("example.com/myapp_test", fileName, ignore);
    ShouldSkipFileCases("example.com/myapp", fileName, ignore);
  }

  /**
   * No type information, or a receiver whose type is neither m's named type
   * nor an interface, never reaches m: a direct call on a struct value is not
   * a use of the interface method.
   */
  lemma NotInterfaceNeverReaches<S>(name: string, underlying: Type<S>, m: InterfaceMethod<S>, eq: (S, S) -> bool)
    requires name != m.interfaceName && !underlying.Interface?
    ensures !Reaches(None, m, eq)
    ensures !Reaches(Some(Named(name, underlying)), m, eq)
    ensures !underlying.Named? ==> !Reaches(Some(underlying), m, eq)
  {
  }

  /**
   * A receiver whose type is m's interface, or an identical interface under
   * another name, reaches m; with identity an equivalence, so does any
   * interface declaring m's name and signature.
   */
  lemma InterfaceReceiversReach<S(!new)>(other: string, m: InterfaceMethod<S>, k: nat, eq: (S, S) -> bool)
    requires IsEquivalence(eq)
    requires k < |m.iface| && m.iface[k].name == m.methodName
    ensures forall u :: Reaches(Some(Named(m.interfaceName, u)), m, eq)
    ensures Reaches(Some(Named(other, Interface(m.iface))), m, eq)
    ensures Reaches(Some(Interface([m.iface[k]])), m, eq)
  {
    assert SharesMethod(m.iface, m.iface, m.methodName, eq) by {
      assert eq(m.iface[k].sig, m.iface[k].sig);
    }
    assert SharesMethod([m.iface[k]], m.iface, m.methodName, eq) by {
      assert [m.iface[k]][0] == m.iface[k];
    }
  }

  /**
   * Same-named methods with different signatures are kept apart: a call of
   * Process on a ProcessorV1 value is evidence for ProcessorV1.Process and not
   * for ProcessorV2.Process when the two signatures are not identical.
   */
  lemma SameNameDifferentSignature<S(!new)>(s1: S, s2: S, eq: (S, S) -> bool)
    requires IsEquivalence(eq) && !eq(s1, s2)
    ensures var v1 := [Method("Process", s1)];
            var v2 := [Method("Process", s2)];
            var call := CallNode(SelectorCallee(SelectorExpr(OtherBase, "Process", Some(Named("ProcessorV1", Interface(v1))), None)));
            && NodeEvidence(call, InterfaceMethod("ProcessorV1", "Process", "(int)", "p.go", v1), eq)
            && !NodeEvidence(call, InterfaceMethod("ProcessorV2", "Process", "(string)", "p.go", v2), eq)
  {
    var v1 := [Method("Process", s1)];
    var v2 := [Method("Process", s2)];
    assert !HasMatch(v2[0], v1, eq) by {
      assert !eq(s2, s1);
    }
    assert !SameInterface(v2, v1, eq);
  }
}
