/**
 * Stage 2 of the two-stage pipeline (pkg/stage2/stage2.go): the elimination
 * pass. For every interface method that stage 1 did not find used, the
 * method is deleted from the parsed file, the file is written into a copy of
 * the project and an external checker is run on the copy; if the checker
 * succeeds the method is reported UNUSED. The copy of the file on disk is
 * then restored, but the parsed file in memory is not, so later deletions in
 * the same file are made on top of earlier ones.
 *
 * The checker is a parameter: given the path of the file being edited and
 * the declarations written to it, it says whether the copy of the project
 * passes (every other file of the copy is the original).
 */
module Stage2 {
  import opened Common
  import opened GoAst
  import Stage1

  /** A method to check: its interface and its name. */
  datatype Method = Method(interfaceName: string, methodName: string)

  /** An interface declaration with its methods. */
  datatype Interface = Interface(name: string, methods: seq<Method>)

  /**
   * A parsed file whose type declarations the pass edits in place; path is
   * the name it was parsed from, which the shared file set records for it,
   * and parsed the declarations as the loader read them from disk.
   */
  class AstFile {
    const path: string
    ghost const parsed: seq<TypeSpec>
    var decls: seq<TypeSpec>

    constructor (path: string, decls: seq<TypeSpec>)
      ensures this.path == path && this.parsed == decls && this.decls == decls
    {
      this.path := path;
      this.parsed := decls;
      this.decls := decls;
    }
  }

  /** A package: its parsed files by path. */
  datatype Package = Package(files: map<string, AstFile>)

  /** One UNUSED line: the package and file it was found in and the method. */
  datatype Report = Report(pkgPath: string, filePath: string, found: Method)

  // ---------------------------------------------------------------------
  // findInterfaces, as functions

  /** The methods of one interface: one per named field, keyed by the field's first name. */
  function MethodKeys(interfaceName: string, fields: seq<Field>): seq<Method>
  {
    if fields == [] then []
    else
      var f := fields[|fields| - 1];
      MethodKeys(interfaceName, fields[..|fields| - 1]) + (if IsEmbedded(f) then [] else [Method(interfaceName, f.names[0])])
  }

  /** The Interface found for one interface type spec. */
  function InterfaceOf(d: TypeSpec): Interface
    requires d.typ.InterfaceType?
  {
    Interface(d.name, MethodKeys(d.name, d.typ.methods))
  }

  /** findInterfaces: one Interface per interface type spec, in walk order. */
  function InterfacesOf(decls: seq<TypeSpec>): seq<Interface>
  {
    if decls == [] then []
    else
      var d := decls[|decls| - 1];
      InterfacesOf(decls[..|decls| - 1])
      + (if d.typ.InterfaceType? then [InterfaceOf(d)] else [])
  }

  /** The methods of a list of interfaces, interface by interface. */
  function Candidates(ifaces: seq<Interface>): seq<Method>
  {
    if ifaces == [] then [] else Candidates(ifaces[..|ifaces| - 1]) + ifaces[|ifaces| - 1].methods
  }

  // ---------------------------------------------------------------------
  // removeMethod, as functions

  /** removeMethod keeps a field when it is embedded or its first name is not the method's. */
  predicate Keeps(f: Field, methodName: string)
  {
    IsEmbedded(f) || f.names[0] != methodName
  }

  function FilterFields(fields: seq<Field>, methodName: string): seq<Field>
  {
    if fields == [] then []
    else
      var f := fields[|fields| - 1];
      FilterFields(fields[..|fields| - 1], methodName) + (if Keeps(f, methodName) then [f] else [])
  }

  /** Some field of the list is dropped. */
  predicate DropsField(fields: seq<Field>, methodName: string)
  {
    exists j :: 0 <= j < |fields| && !Keeps(fields[j], methodName)
  }

  /** The type spec is an interface declaration named `interfaceName`. */
  predicate Targets(d: TypeSpec, interfaceName: string)
  {
    d.name == interfaceName && d.typ.InterfaceType?
  }

  function RemoveInDecl(d: TypeSpec, interfaceName: string, methodName: string): TypeSpec
  {
    if Targets(d, interfaceName) then d.(typ := InterfaceType(FilterFields(d.typ.methods, methodName))) else d
  }

  /** removeMethod's effect: every interface declaration with the name loses the matching fields. */
  function RemoveInDecls(decls: seq<TypeSpec>, interfaceName: string, methodName: string): seq<TypeSpec>
  {
    seq(|decls|, k requires 0 <= k < |decls| => RemoveInDecl(decls[k], interfaceName, methodName))
  }

  /** removeMethod's result: some interface declaration with the name declares the method, so one of its fields is dropped. */
  predicate Removes(decls: seq<TypeSpec>, interfaceName: string, methodName: string)
  {
    exists k :: 0 <= k < |decls| && Targets(decls[k], interfaceName) && DropsField(decls[k].typ.methods, methodName)
  }

  // ---------------------------------------------------------------------
  // The candidate loop, as functions

  /** The key `Interface.Method` under which stage 1's results are looked up. */
  function Key(interfaceName: string, methodName: string): string
  {
    interfaceName + "." + methodName
  }

  /** The keys of the methods stage 1 found used in a package. */
  function UsedKeys<S>(used: seq<Stage1.UsedMethod<S>>): set<string>
  {
    set k | 0 <= k < |used| :: Key(used[k].interfaceName, used[k].methodName)
  }

  /** The parsed file and the methods reported so far. */
  datatype SweepState = SweepState(decls: seq<TypeSpec>, reported: seq<Method>)

  /**
   * The candidate loop over one file as written: a candidate whose key is used
   * is passed over; any other is deleted from the current declarations, and
   * when the deletion changed something the checker is asked about the
   * result. The deletion is kept whatever the checker says.
   */
  function Sweep(d0: seq<TypeSpec>, cands: seq<Method>, used: set<string>, passes: (string, seq<TypeSpec>) -> bool,
                 path: string): SweepState
  {
    if cands == [] then SweepState(d0, [])
    else Step(Sweep(d0, cands[..|cands| - 1], used, passes, path), cands[|cands| - 1], used, passes, path)
  }

  /** One turn of the candidate loop. */
  function Step(st: SweepState, c: Method, used: set<string>, passes: (string, seq<TypeSpec>) -> bool, path: string): SweepState
  {
    if Key(c.interfaceName, c.methodName) in used then st
    else
      var nd := RemoveInDecls(st.decls, c.interfaceName, c.methodName);
      if Removes(st.decls, c.interfaceName, c.methodName) then
        SweepState(nd, st.reported + (if passes(path, nd) then [c] else []))
      else SweepState(nd, st.reported)
  }

  /** What the pass does to one file that is not ignored: every method of every interface it declares is a candidate. */
  function FileResult(d0: seq<TypeSpec>, used: set<string>, passes: (string, seq<TypeSpec>) -> bool, path: string): SweepState
  {
    Sweep(d0, Candidates(InterfacesOf(d0)), used, passes, path)
  }

  /**
   * The evidently intended candidate loop: each candidate is checked with
   * exactly one deletion relative to the original declarations.
   */
  function IsolatedReports(d0: seq<TypeSpec>, cands: seq<Method>, used: set<string>,
                           passes: (string, seq<TypeSpec>) -> bool, path: string): seq<Method>
  {
    if cands == [] then []
    else
      var c := cands[|cands| - 1];
      IsolatedReports(d0, cands[..|cands| - 1], used, passes, path)
      + (if Key(c.interfaceName, c.methodName) !in used && Removes(d0, c.interfaceName, c.methodName)
            && passes(path, RemoveInDecls(d0, c.interfaceName, c.methodName))
         then [c] else [])
  }

  // ---------------------------------------------------------------------
  // The pass

  /** findInterfaces */
  method FindInterfaces(file: AstFile) returns (interfaces: seq<Interface>)
    ensures interfaces == InterfacesOf(file.decls)
  {
    var decls := file.decls;
    interfaces := [];
    var k := 0;
    while k < |decls|
      invariant 0 <= k <= |decls|
      invariant interfaces == InterfacesOf(decls[..k])
    {
      assert decls[..k + 1][..k] == decls[..k];
      var d := decls[k];
      if d.typ.InterfaceType? {
        var fields := d.typ.methods;
        var methods := [];
        var j := 0;
        while j < |fields|
          invariant 0 <= j <= |fields|
          invariant methods == MethodKeys(d.name, fields[..j])
        {
          assert fields[..j + 1][..j] == fields[..j];
          if |fields[j].names| > 0 {
            methods := methods + [Method(d.name, fields[j].names[0])];
          }
          j := j + 1;
        }
        assert fields[..j] == fields;
        interfaces := interfaces + [Interface(d.name, methods)];
      }
      k := k + 1;
    }
    assert decls[..k] == decls;
  }

  /** The filtering loop of removeMethod over one interface's field list. */
  method FilterInterfaceFields(fields: seq<Field>, methodName: string) returns (kept: seq<Field>, removed: bool)
    ensures kept == FilterFields(fields, methodName)
    ensures removed == DropsField(fields, methodName)
  {
    kept := [];
    removed := false;
    var j := 0;
    while j < |fields|
      invariant 0 <= j <= |fields|
      invariant kept == FilterFields(fields[..j], methodName)
      invariant removed <==> exists j' :: 0 <= j' < j && !Keeps(fields[j'], methodName)
    {
      assert fields[..j + 1][..j] == fields[..j];
      var f := fields[j];
      if |f.names| == 0 {
        kept := kept + [f];
      } else if f.names[0] != methodName {
        kept := kept + [f];
      } else {
        removed := true;
      }
      j := j + 1;
    }
    assert fields[..j] == fields;
  }

  /** removeMethod: filters, in place, the field list of every interface declaration with the name. */
  method RemoveMethod(file: AstFile, interfaceName: string, methodName: string) returns (removed: bool)
    modifies file
    ensures file.decls == RemoveInDecls(old(file.decls), interfaceName, methodName)
    ensures removed == Removes(old(file.decls), interfaceName, methodName)
  {
    removed := false;
    var k := 0;
    while k < |file.decls|
      invariant 0 <= k <= |file.decls| == |old(file.decls)|
      invariant forall j :: 0 <= j < k ==> file.decls[j] == RemoveInDecl(old(file.decls)[j], interfaceName, methodName)
      invariant forall j :: k <= j < |file.decls| ==> file.decls[j] == old(file.decls)[j]
      invariant removed <==> exists j :: 0 <= j < k && Targets(old(file.decls)[j], interfaceName)
                                         && DropsField(old(file.decls)[j].typ.methods, methodName)
    {
      var d := file.decls[k];
      if d.name == interfaceName && d.typ.InterfaceType? {
        var kept, dropped := FilterInterfaceFields(d.typ.methods, methodName);
        file.decls := file.decls[k := d.(typ := InterfaceType(kept))];
        if dropped {
          removed := true;
        }
      }
      k := k + 1;
    }
  }

  /** One turn of the candidate loop: delete, ask the checker, report; the deletion is kept. */
  method CheckCandidate(file: AstFile, c: Method, path: string, used: set<string>, passes: (string, seq<TypeSpec>) -> bool,
                        reported: seq<Method>)
    returns (reported': seq<Method>)
    modifies file
    ensures SweepState(file.decls, reported') == Step(SweepState(old(file.decls), reported), c, used, passes, path)
  {
    reported' := reported;
    if Key(c.interfaceName, c.methodName) !in used {
      var removed := RemoveMethod(file, c.interfaceName, c.methodName);
      if removed {
        var ok := passes(path, file.decls);
        if ok {
          reported' := reported' + [c];
        }
      }
    }
  }

  /** The candidate loop of FindUnusedMethods for one file, as written: the parsed file keeps every deletion. */
  method CheckFile(file: AstFile, path: string, used: set<string>, passes: (string, seq<TypeSpec>) -> bool)
    returns (reported: seq<Method>)
    modifies file
    ensures SweepState(file.decls, reported) == FileResult(old(file.decls), used, passes, path)
  {
    ghost var d0 := file.decls;
    var interfaces := FindInterfaces(file);
    reported := [];
    var i := 0;
    while i < |interfaces|
      invariant 0 <= i <= |interfaces|
      invariant SweepState(file.decls, reported) == Sweep(d0, Candidates(interfaces[..i]), used, passes, path)
    {
      CandidatesStep(interfaces, i);
      reported := CheckInterface(file, interfaces[i].methods, path, used, passes, d0, Candidates(interfaces[..i]), reported);
      i := i + 1;
    }
    assert interfaces[..i] == interfaces;
  }

  /** The methods of one interface, in order, each checked on top of the deletions before it. */
  method CheckInterface(file: AstFile, methods: seq<Method>, path: string, used: set<string>,
                        passes: (string, seq<TypeSpec>) -> bool, ghost d0: seq<TypeSpec>, ghost before: seq<Method>,
                        reported: seq<Method>)
    returns (reported': seq<Method>)
    requires SweepState(file.decls, reported) == Sweep(d0, before, used, passes, path)
    modifies file
    ensures SweepState(file.decls, reported') == Sweep(d0, before + methods, used, passes, path)
  {
    reported' := reported;
    ghost var done := before;
    var j := 0;
    SliceSnoc(before, methods, 0);
    while j < |methods|
      invariant 0 <= j <= |methods|
      invariant done == before + methods[..j]
      invariant SweepState(file.decls, reported') == Sweep(d0, done, used, passes, path)
    {
      SweepSnoc(d0, done, methods[j], used, passes, path);
      reported' := CheckCandidate(file, methods[j], path, used, passes, reported');
      SliceSnoc(before, methods, j + 1);
      done := done + [methods[j]];
      j := j + 1;
    }
    SliceSnoc(before, methods, j);
  }

  /** The candidate loop with the parsed file restored after every check. */
  method CheckFileRestoring(file: AstFile, path: string, used: set<string>, passes: (string, seq<TypeSpec>) -> bool)
    returns (reported: seq<Method>)
    modifies file
    ensures reported == IsolatedReports(old(file.decls), Candidates(InterfacesOf(old(file.decls))), used, passes, path)
    ensures file.decls == old(file.decls)
  {
    var interfaces := FindInterfaces(file);
    reported := [];
    var i := 0;
    while i < |interfaces|
      invariant 0 <= i <= |interfaces|
      invariant file.decls == old(file.decls)
      invariant reported == IsolatedReports(file.decls, Candidates(interfaces[..i]), used, passes, path)
    {
      CandidatesStep(interfaces, i);
      reported := CheckInterfaceRestoring(file, interfaces[i].methods, path, used, passes, Candidates(interfaces[..i]), reported);
      i := i + 1;
    }
    assert interfaces[..i] == interfaces;
  }

  /** The methods of one interface, each checked against the file as it was before the loop. */
  method CheckInterfaceRestoring(file: AstFile, methods: seq<Method>, path: string, used: set<string>,
                                 passes: (string, seq<TypeSpec>) -> bool, ghost before: seq<Method>, reported: seq<Method>)
    returns (reported': seq<Method>)
    requires reported == IsolatedReports(file.decls, before, used, passes, path)
    modifies file
    ensures file.decls == old(file.decls)
    ensures reported' == IsolatedReports(file.decls, before + methods, used, passes, path)
  {
    var original := file.decls;
    reported' := reported;
    ghost var done := before;
    var j := 0;
    SliceSnoc(before, methods, 0);
    while j < |methods|
      invariant 0 <= j <= |methods|
      invariant file.decls == original
      invariant done == before + methods[..j]
      invariant reported' == IsolatedReports(original, done, used, passes, path)
    {
      var c := methods[j];
      IsolatedSnoc(original, done, c, used, passes, path);
      SliceSnoc(before, methods, j + 1);
      done := done + [c];
      if Key(c.interfaceName, c.methodName) !in used {
        var removed := RemoveMethod(file, c.interfaceName, c.methodName);
        if removed {
          var ok := passes(path, file.decls);
          if ok {
            reported' := reported' + [c];
          }
        }
        file.decls := original;
      }
      j := j + 1;
    }
    SliceSnoc(before, methods, j);
  }

  /** `before + xs[..j]`, one element at a time, up to `before + xs`. */
  lemma SliceSnoc<T>(before: seq<T>, xs: seq<T>, j: nat)
    requires j <= |xs|
    ensures j == 0 ==> before + xs[..j] == before
    ensures 0 < j ==> before + xs[..j] == before + xs[..j - 1] + [xs[j - 1]]
    ensures j == |xs| ==> before + xs[..j] == before + xs
  {
    if 0 < j {
      assert xs[..j] == xs[..j - 1] + [xs[j - 1]];
    }
    assert xs[..|xs|] == xs;
  }

  lemma CandidatesStep(ifaces: seq<Interface>, i: nat)
    requires i < |ifaces|
    ensures Candidates(ifaces[..i + 1]) == Candidates(ifaces[..i]) + ifaces[i].methods
  {
    assert ifaces[..i + 1][..i] == ifaces[..i];
  }

  /** All parsed files of all packages. */
  function AllFiles(pkgs: map<string, Package>): set<AstFile>
  {
    set p, f | p in pkgs && f in pkgs[p].files :: pkgs[p].files[f]
  }

  /** The parsed files of a package. */
  function FilesOf(files: map<string, AstFile>): set<AstFile>
  {
    set f | f in files :: files[f]
  }

  /** Each file is stored under the path it was parsed from. */
  predicate Indexed(files: map<string, AstFile>)
  {
    forall f :: f in files ==> files[f].path == f
  }

  /**
   * As the loader builds them: every file is stored under its own path, in
   * the one package its directory names.
   */
  predicate DistinctFiles(pkgs: map<string, Package>)
  {
    && (forall p :: p in pkgs ==> Indexed(pkgs[p].files))
    && (forall p, q, f :: p in pkgs && q in pkgs && f in pkgs[p].files && f in pkgs[q].files ==> p == q)
  }

  /** The files loop of FindUnusedMethods for one package, in an unspecified order; ignored files are passed over. */
  method CheckPackage(pkgPath: string, files: map<string, AstFile>, used: set<string>, ignore: string -> bool,
                      passes: (string, seq<TypeSpec>) -> bool)
    returns (reported: seq<Report>)
    requires Indexed(files) && Unedited(files)
    modifies FilesOf(files)
    ensures Swept(files, used, ignore, passes)
    ensures forall r :: r in reported <==> r.pkgPath == pkgPath && Reported(files, used, ignore, passes, r)
  {
    reported := [];
    var remaining := files.Keys;
    while remaining != {}
      invariant remaining <= files.Keys
      invariant forall f :: f in files ==>
                  files[f].decls == (if ignore(f) || f in remaining then files[f].parsed
                                     else FileResult(files[f].parsed, used, passes, f).decls)
      invariant forall r :: r in reported <==>
                  r.pkgPath == pkgPath && r.filePath !in remaining && Reported(files, used, ignore, passes, r)
      decreases |remaining|
    {
      var filePath :| filePath in remaining;
      remaining := remaining - {filePath};
      if !ignore(filePath) {
        var found := CheckFile(files[filePath], filePath, used, passes);
        reported := reported + ReportsOf(pkgPath, filePath, found);
      }
    }
  }

  /**
   * FindUnusedMethods: every file that is not ignored goes through the
   * candidate loop with the keys stage 1 found used in its package, in an
   * unspecified order of packages and files; ignored files are untouched.
   */
  method FindUnusedMethods<S>(pkgs: map<string, Package>, usedByPkg: map<string, seq<Stage1.UsedMethod<S>>>,
                              ignore: string -> bool, passes: (string, seq<TypeSpec>) -> bool)
    returns (reported: seq<Report>)
    requires DistinctFiles(pkgs) && forall p :: p in pkgs ==> Unedited(pkgs[p].files)
    modifies AllFiles(pkgs)
    ensures forall p :: p in pkgs ==> Swept(pkgs[p].files, UsedFor(usedByPkg, p), ignore, passes)
    ensures forall r :: r in reported <==>
              r.pkgPath in pkgs && Reported(pkgs[r.pkgPath].files, UsedFor(usedByPkg, r.pkgPath), ignore, passes, r)
  {
    reported := [];
    var remaining := pkgs.Keys;
    while remaining != {}
      invariant remaining <= pkgs.Keys
      invariant forall p :: p in remaining ==> Unedited(pkgs[p].files)
      invariant forall p :: p in pkgs && p !in remaining ==> Swept(pkgs[p].files, UsedFor(usedByPkg, p), ignore, passes)
      invariant forall r :: r in reported <==>
                  r.pkgPath in pkgs && r.pkgPath !in remaining
                  && Reported(pkgs[r.pkgPath].files, UsedFor(usedByPkg, r.pkgPath), ignore, passes, r)
      decreases |remaining|
    {
      var pkgPath :| pkgPath in remaining;
      reported := VisitPackage(pkgs, pkgPath, usedByPkg, ignore, passes, remaining, reported);
      remaining := remaining - {pkgPath};
    }
  }

  /** One turn of FindUnusedMethods' packages loop: the files of the package at pkgPath are checked. */
  method VisitPackage<S>(pkgs: map<string, Package>, pkgPath: string, usedByPkg: map<string, seq<Stage1.UsedMethod<S>>>,
                         ignore: string -> bool, passes: (string, seq<TypeSpec>) -> bool, ghost remaining: set<string>,
                         reported: seq<Report>)
    returns (reported': seq<Report>)
    requires DistinctFiles(pkgs) && pkgPath in remaining && remaining <= pkgs.Keys
    requires forall p :: p in remaining ==> Unedited(pkgs[p].files)
    requires forall p :: p in pkgs && p !in remaining ==> Swept(pkgs[p].files, UsedFor(usedByPkg, p), ignore, passes)
    requires forall r :: r in reported <==>
               r.pkgPath in pkgs && r.pkgPath !in remaining
               && Reported(pkgs[r.pkgPath].files, UsedFor(usedByPkg, r.pkgPath), ignore, passes, r)
    modifies AllFiles(pkgs)
    ensures forall p :: p in remaining - {pkgPath} ==> Unedited(pkgs[p].files)
    ensures forall p :: p in pkgs && p !in remaining - {pkgPath} ==> Swept(pkgs[p].files, UsedFor(usedByPkg, p), ignore, passes)
    ensures forall r :: r in reported' <==>
              r.pkgPath in pkgs && r.pkgPath !in remaining - {pkgPath}
              && Reported(pkgs[r.pkgPath].files, UsedFor(usedByPkg, r.pkgPath), ignore, passes, r)
  {
    var files := pkgs[pkgPath].files;
    OtherPackagesOutside(pkgs, pkgPath);
    var found := CheckPackage(pkgPath, files, UsedFor(usedByPkg, pkgPath), ignore, passes);
    reported' := reported + found;
  }

  /** No file has been edited since the loader parsed it. */
  ghost predicate Unedited(files: map<string, AstFile>)
    reads FilesOf(files)
  {
    forall f :: f in files ==> files[f].decls == files[f].parsed
  }

  /** Each file of a package is as its sweep with used leaves it, or as parsed when it is ignored. */
  ghost predicate Swept(files: map<string, AstFile>, used: set<string>, ignore: string -> bool,
                        passes: (string, seq<TypeSpec>) -> bool)
    reads FilesOf(files)
  {
    forall f :: f in files ==>
      files[f].decls == (if ignore(f) then files[f].parsed else FileResult(files[f].parsed, used, passes, f).decls)
  }

  /** r names a file of the package that is not ignored and a method its sweep with used reports. */
  ghost predicate Reported(files: map<string, AstFile>, used: set<string>, ignore: string -> bool,
                           passes: (string, seq<TypeSpec>) -> bool, r: Report)
  {
    r.filePath in files && !ignore(r.filePath) && r.found in FileResult(files[r.filePath].parsed, used, passes, r.filePath).reported
  }

  /** The files of the other packages lie apart from the files of the package at pkgPath, and the latter are all in AllFiles. */
  lemma OtherPackagesOutside(pkgs: map<string, Package>, pkgPath: string)
    requires DistinctFiles(pkgs) && pkgPath in pkgs
    ensures forall p :: p in pkgs && p != pkgPath ==> FilesOf(pkgs[p].files) !! FilesOf(pkgs[pkgPath].files)
    ensures FilesOf(pkgs[pkgPath].files) <= AllFiles(pkgs)
  {
    forall p | p in pkgs && p != pkgPath
      ensures FilesOf(pkgs[p].files) !! FilesOf(pkgs[pkgPath].files)
    {
      forall f | f in pkgs[p].files
        ensures pkgs[p].files[f] !in FilesOf(pkgs[pkgPath].files)
      {
        assert f !in pkgs[pkgPath].files;
      }
    }
  }

  /** The keys stage 1 found used in a package; a package it has no entry for has none. */
  function UsedFor<S>(usedByPkg: map<string, seq<Stage1.UsedMethod<S>>>, pkgPath: string): set<string>
  {
    if pkgPath in usedByPkg then UsedKeys(usedByPkg[pkgPath]) else {}
  }

  function ReportsOf(pkgPath: string, filePath: string, ms: seq<Method>): (r: seq<Report>)
    ensures forall x :: x in r <==> x.pkgPath == pkgPath && x.filePath == filePath && x.found in ms
  {
    if ms == [] then []
    else ReportsOf(pkgPath, filePath, ms[..|ms| - 1]) + [Report(pkgPath, filePath, ms[|ms| - 1])]
  }

  // ---------------------------------------------------------------------
  // Lemmas about removeMethod

  /** A field survives exactly when it is embedded or its first name is not the method's. */
  lemma {:induction false} FilterFieldsMembers(fields: seq<Field>, methodName: string)
    ensures forall f :: f in FilterFields(fields, methodName) <==> f in fields && Keeps(f, methodName)
  {
    if fields != [] {
      FilterFieldsMembers(fields[..|fields| - 1], methodName);
      assert fields == fields[..|fields| - 1] + [fields[|fields| - 1]];
    }
  }

  function KeepMask(fields: seq<Field>, methodName: string): (mask: seq<bool>)
    ensures |mask| == |fields|
  {
    seq(|fields|, j requires 0 <= j < |fields| => Keeps(fields[j], methodName))
  }

  /** The surviving fields keep their relative order. */
  lemma {:induction false} FilterFieldsInOrder(fields: seq<Field>, methodName: string)
    ensures FilterFields(fields, methodName) == Select(fields, KeepMask(fields, methodName))
    ensures IsSubsequence(FilterFields(fields, methodName), fields)
  {
    if fields != [] {
      var init := fields[..|fields| - 1];
      var f := fields[|fields| - 1];
      FilterFieldsInOrder(init, methodName);
      assert KeepMask(fields, methodName) == KeepMask(init, methodName) + [Keeps(f, methodName)];
      SelectSnoc(init, KeepMask(init, methodName), f, Keeps(f, methodName));
      assert init + [f] == fields;
    }
    SelectIsSubsequence(fields, KeepMask(fields, methodName));
  }

  /** Filtering changes the list exactly when some field is dropped, and then it gets shorter. */
  lemma {:induction false} FilterFieldsChanges(fields: seq<Field>, methodName: string)
    ensures !DropsField(fields, methodName) ==> FilterFields(fields, methodName) == fields
    ensures DropsField(fields, methodName) ==> |FilterFields(fields, methodName)| < |fields|
    ensures |FilterFields(fields, methodName)| <= |fields|
  {
    if fields != [] {
      var init := fields[..|fields| - 1];
      FilterFieldsChanges(init, methodName);
      if DropsField(fields, methodName) && Keeps(fields[|fields| - 1], methodName) {
        var j :| 0 <= j < |fields| && !Keeps(fields[j], methodName);
        assert init[j] == fields[j];
      }
      if !DropsField(fields, methodName) {
        assert !DropsField(init, methodName) by {
          forall j | 0 <= j < |init| ensures Keeps(init[j], methodName) {
            assert init[j] == fields[j];
          }
        }
        assert init + [fields[|fields| - 1]] == fields;
      }
    }
  }

  /**
   * removeMethod changes the declarations exactly when it reports a
   * deletion; declarations that are not interfaces with the name are left as
   * they were, and an interface with the name keeps its embedded fields.
   */
  lemma RemoveMethodChangesIffRemoved(decls: seq<TypeSpec>, interfaceName: string, methodName: string)
    ensures RemoveInDecls(decls, interfaceName, methodName) != decls <==> Removes(decls, interfaceName, methodName)
    ensures forall k :: 0 <= k < |decls| && !Targets(decls[k], interfaceName) ==>
              RemoveInDecls(decls, interfaceName, methodName)[k] == decls[k]
    ensures forall k, f :: 0 <= k < |decls| && Targets(decls[k], interfaceName) && f in decls[k].typ.methods && IsEmbedded(f) ==>
              f in RemoveInDecls(decls, interfaceName, methodName)[k].typ.methods
  {
    var r := RemoveInDecls(decls, interfaceName, methodName);
    forall k | 0 <= k < |decls| && Targets(decls[k], interfaceName)
      ensures r[k] == decls[k] <==> !DropsField(decls[k].typ.methods, methodName)
      ensures forall f :: f in decls[k].typ.methods && IsEmbedded(f) ==> f in r[k].typ.methods
    {
      FilterFieldsChanges(decls[k].typ.methods, methodName);
      FilterFieldsMembers(decls[k].typ.methods, methodName);
    }
    if Removes(decls, interfaceName, methodName) {
      var k :| 0 <= k < |decls| && Targets(decls[k], interfaceName) && DropsField(decls[k].typ.methods, methodName);
      assert r[k] != decls[k];
    }
    if r != decls {
      assert |r| == |decls|;
      var k :| 0 <= k < |decls| && r[k] != decls[k];
    }
  }

  // ---------------------------------------------------------------------
  // Lemmas about findInterfaces

  /** An interface's methods are its named fields, keyed by first name and by the interface's own name. */
  lemma {:induction false} MethodKeysMembers(interfaceName: string, fields: seq<Field>)
    ensures forall m :: m in MethodKeys(interfaceName, fields) <==>
              m.interfaceName == interfaceName
              && exists j :: 0 <= j < |fields| && !IsEmbedded(fields[j]) && fields[j].names[0] == m.methodName
  {
    if fields != [] {
      var init := fields[..|fields| - 1];
      MethodKeysMembers(interfaceName, init);
      forall m ensures m in MethodKeys(interfaceName, fields) <==>
                         m.interfaceName == interfaceName
                         && exists j :: 0 <= j < |fields| && !IsEmbedded(fields[j]) && fields[j].names[0] == m.methodName
      {
        if m.interfaceName == interfaceName
           && exists j :: 0 <= j < |fields| && !IsEmbedded(fields[j]) && fields[j].names[0] == m.methodName {
          var j :| 0 <= j < |fields| && !IsEmbedded(fields[j]) && fields[j].names[0] == m.methodName;
          if j < |init| {
            assert init[j] == fields[j];
          }
        }
        if m in MethodKeys(interfaceName, init) {
          var j :| 0 <= j < |init| && !IsEmbedded(init[j]) && init[j].names[0] == m.methodName;
          assert fields[j] == init[j];
        }
      }
    }
  }

  /** findInterfaces yields exactly the interface type specs, each with its method keys. */
  lemma InterfacesOfMembers(decls: seq<TypeSpec>)
    ensures forall i :: i in InterfacesOf(decls) <==>
              exists k :: 0 <= k < |decls| && decls[k].typ.InterfaceType? && i == InterfaceOf(decls[k])
  {
    forall i | i in InterfacesOf(decls)
      ensures exists k :: 0 <= k < |decls| && decls[k].typ.InterfaceType? && i == InterfaceOf(decls[k])
    {
      var k := InterfaceIndex(decls, i);
    }
    forall k | 0 <= k < |decls| && decls[k].typ.InterfaceType?
      ensures InterfaceOf(decls[k]) in InterfacesOf(decls)
    {
      InterfaceFound(decls, k);
    }
  }

  /** Every interface found comes from an interface type spec. */
  lemma {:induction false} InterfaceIndex(decls: seq<TypeSpec>, i: Interface) returns (k: nat)
    requires i in InterfacesOf(decls)
    ensures k < |decls| && decls[k].typ.InterfaceType? && i == InterfaceOf(decls[k])
  {
    var n := |decls| - 1;
    var init := decls[..n];
    assert InterfacesOf(decls) == InterfacesOf(init) + (if decls[n].typ.InterfaceType? then [InterfaceOf(decls[n])] else []);
    if i in InterfacesOf(init) {
      k := InterfaceIndex(init, i);
      assert decls[k] == init[k];
    } else {
      k := n;
    }
  }

  /** Every interface type spec is found. */
  lemma {:induction false} InterfaceFound(decls: seq<TypeSpec>, k: nat)
    requires k < |decls| && decls[k].typ.InterfaceType?
    ensures InterfaceOf(decls[k]) in InterfacesOf(decls)
  {
    var n := |decls| - 1;
    var init := decls[..n];
    assert InterfacesOf(decls) == InterfacesOf(init) + (if decls[n].typ.InterfaceType? then [InterfaceOf(decls[n])] else []);
    if k < n {
      assert init[k] == decls[k];
      InterfaceFound(init, k);
    }
  }

  /** Every method found carries the name of the interface it was found in. */
  lemma InterfaceNamesAgree(decls: seq<TypeSpec>)
    ensures forall i, m :: i in InterfacesOf(decls) && m in i.methods ==> m.interfaceName == i.name
  {
    InterfacesOfMembers(decls);
    forall i, m | i in InterfacesOf(decls) && m in i.methods ensures m.interfaceName == i.name {
      var k :| 0 <= k < |decls| && decls[k].typ.InterfaceType?
               && i == InterfaceOf(decls[k]);
      assert i.methods == MethodKeys(decls[k].name, decls[k].typ.methods);
      MethodKeysMembers(decls[k].name, decls[k].typ.methods);
    }
  }

  // ---------------------------------------------------------------------
  // Lemmas about the candidate loop

  /**
   * The k-th candidate is reported at its turn: its key is not used, the
   * deletion changes the declarations as they then are, and the checker
   * passes on the result.
   */
  predicate ReportedAt(d0: seq<TypeSpec>, cands: seq<Method>, k: nat, used: set<string>,
                       passes: (string, seq<TypeSpec>) -> bool, path: string)
    requires k < |cands|
  {
    var c := cands[k];
    var before := Sweep(d0, cands[..k], used, passes, path).decls;
    Key(c.interfaceName, c.methodName) !in used && Removes(before, c.interfaceName, c.methodName)
    && passes(path, RemoveInDecls(before, c.interfaceName, c.methodName))
  }

  lemma ReportedAtPrefix(d0: seq<TypeSpec>, cands: seq<Method>, n: nat, k: nat, used: set<string>,
                         passes: (string, seq<TypeSpec>) -> bool, path: string)
    requires k < n <= |cands|
    ensures ReportedAt(d0, cands[..n], k, used, passes, path) == ReportedAt(d0, cands, k, used, passes, path)
  {
    assert cands[..n][..k] == cands[..k];
  }

  /** A candidate is reported exactly when it is reported at one of its turns. */
  lemma SweepReports(d0: seq<TypeSpec>, cands: seq<Method>, used: set<string>,
                     passes: (string, seq<TypeSpec>) -> bool, path: string)
    ensures forall c :: c in Sweep(d0, cands, used, passes, path).reported <==>
              exists k :: 0 <= k < |cands| && cands[k] == c && ReportedAt(d0, cands, k, used, passes, path)
  {
    forall c | c in Sweep(d0, cands, used, passes, path).reported
      ensures exists k :: 0 <= k < |cands| && cands[k] == c && ReportedAt(d0, cands, k, used, passes, path)
    {
      var k := ReportedTurn(d0, cands, used, passes, path, c);
    }
    forall k | 0 <= k < |cands| && ReportedAt(d0, cands, k, used, passes, path)
      ensures cands[k] in Sweep(d0, cands, used, passes, path).reported
    {
      ReportedAtTurn(d0, cands, used, passes, path, k);
    }
  }

  /** The last turn adds the last candidate to the reports exactly when it is reported at that turn. */
  lemma SweepReportedLast(d0: seq<TypeSpec>, cands: seq<Method>, used: set<string>,
                          passes: (string, seq<TypeSpec>) -> bool, path: string)
    requires cands != []
    ensures Sweep(d0, cands, used, passes, path).reported
            == Sweep(d0, cands[..|cands| - 1], used, passes, path).reported
               + (if ReportedAt(d0, cands, |cands| - 1, used, passes, path) then [cands[|cands| - 1]] else [])
  {
  }

  /** Every reported candidate was reported at one of its turns. */
  lemma {:induction false} ReportedTurn(d0: seq<TypeSpec>, cands: seq<Method>, used: set<string>,
                                        passes: (string, seq<TypeSpec>) -> bool, path: string, c: Method)
    returns (k: nat)
    requires c in Sweep(d0, cands, used, passes, path).reported
    ensures k < |cands| && cands[k] == c && ReportedAt(d0, cands, k, used, passes, path)
  {
    var n := |cands| - 1;
    var init := cands[..n];
    SweepReportedLast(d0, cands, used, passes, path);
    if c in Sweep(d0, init, used, passes, path).reported {
      k := ReportedTurn(d0, init, used, passes, path, c);
      ReportedAtPrefix(d0, cands, n, k, used, passes, path);
    } else {
      k := n;
    }
  }

  /** A candidate reported at one of its turns stays reported. */
  lemma {:induction false} ReportedAtTurn(d0: seq<TypeSpec>, cands: seq<Method>, used: set<string>,
                                          passes: (string, seq<TypeSpec>) -> bool, path: string, k: nat)
    requires k < |cands| && ReportedAt(d0, cands, k, used, passes, path)
    ensures cands[k] in Sweep(d0, cands, used, passes, path).reported
  {
    var n := |cands| - 1;
    var init := cands[..n];
    SweepReportedLast(d0, cands, used, passes, path);
    if k < n {
      ReportedAtPrefix(d0, cands, n, k, used, passes, path);
      ReportedAtTurn(d0, init, used, passes, path, k);
    }
  }

  /** A method whose key stage 1 found used is never reported. */
  lemma UsedNeverReported(d0: seq<TypeSpec>, cands: seq<Method>, used: set<string>,
                          passes: (string, seq<TypeSpec>) -> bool, path: string, c: Method)
    requires Key(c.interfaceName, c.methodName) in used
    ensures c !in Sweep(d0, cands, used, passes, path).reported
  {
    SweepReports(d0, cands, used, passes, path);
  }

  /** Deleting one method leaves every other method of every interface declared. */
  lemma RemoveKeepsOthers(decls: seq<TypeSpec>, i: string, m: string, i': string, m': string)
    requires (i, m) != (i', m')
    requires Removes(decls, i, m)
    ensures Removes(RemoveInDecls(decls, i', m'), i, m)
  {
    var k :| 0 <= k < |decls| && Targets(decls[k], i) && DropsField(decls[k].typ.methods, m);
    var j :| 0 <= j < |decls[k].typ.methods| && !Keeps(decls[k].typ.methods[j], m);
    var f := decls[k].typ.methods[j];
    var r := RemoveInDecls(decls, i', m');
    if Targets(decls[k], i') {
      FilterFieldsMembers(decls[k].typ.methods, m');
      assert f in r[k].typ.methods;
      var j' :| 0 <= j' < |r[k].typ.methods| && r[k].typ.methods[j'] == f;
      assert !Keeps(r[k].typ.methods[j'], m);
    } else {
      assert r[k] == decls[k];
    }
  }

  /** A method whose key stage 1 found used is never deleted from the file. */
  lemma {:induction false} UsedNeverRemoved(d0: seq<TypeSpec>, cands: seq<Method>, used: set<string>,
                                            passes: (string, seq<TypeSpec>) -> bool, path: string, i: string, m: string)
    requires Key(i, m) in used && Removes(d0, i, m)
    ensures Removes(Sweep(d0, cands, used, passes, path).decls, i, m)
  {
    if cands != [] {
      var init := cands[..|cands| - 1];
      var c := cands[|cands| - 1];
      UsedNeverRemoved(d0, init, used, passes, path, i, m);
      if Key(c.interfaceName, c.methodName) !in used {
        RemoveKeepsOthers(Sweep(d0, init, used, passes, path).decls, i, m, c.interfaceName, c.methodName);
      }
    }
  }

  /** The corrected loop reports a candidate exactly when one deletion from the original passes the checker. */
  lemma {:induction false} IsolatedReportsExactly(d0: seq<TypeSpec>, cands: seq<Method>, used: set<string>,
                                                  passes: (string, seq<TypeSpec>) -> bool, path: string)
    ensures forall c :: c in IsolatedReports(d0, cands, used, passes, path) <==>
              c in cands && Key(c.interfaceName, c.methodName) !in used && Removes(d0, c.interfaceName, c.methodName)
              && passes(path, RemoveInDecls(d0, c.interfaceName, c.methodName))
  {
    if cands != [] {
      IsolatedReportsExactly(d0, cands[..|cands| - 1], used, passes, path);
      assert cands == cands[..|cands| - 1] + [cands[|cands| - 1]];
    }
  }

  // The example of the finding: `interface I { A(); B() }` where the checker
  // passes only while I still declares A.

  function ExampleMethod(name: string): Field
  {
    Field([name], FuncType(Some([]), None))
  }

  function ExampleFile(i: string, fields: seq<Field>): seq<TypeSpec>
  {
    [TypeSpec(i, None, InterfaceType(fields))]
  }

  lemma ExampleCandidates(i: string, a: string, b: string)
    ensures Candidates(InterfacesOf(ExampleFile(i, [ExampleMethod(a), ExampleMethod(b)]))) == [Method(i, a), Method(i, b)]
  {
    var fa, fb := ExampleMethod(a), ExampleMethod(b);
    var d0 := ExampleFile(i, [fa, fb]);
    assert [fa, fb][..1] == [fa];
    assert [fa][..0] == [];
    assert MethodKeys(i, [fa]) == [Method(i, a)];
    assert MethodKeys(i, [fa, fb]) == [Method(i, a), Method(i, b)];
    assert d0[..0] == [];
    var ifs := InterfacesOf(d0);
    assert ifs == InterfacesOf(d0[..0]) + [Interface(i, MethodKeys(i, [fa, fb]))];
    assert ifs == [Interface(i, [Method(i, a), Method(i, b)])];
    assert ifs[..0] == [];
  }

  lemma ExampleDelete(i: string, fields: seq<Field>, m: string)
    ensures RemoveInDecls(ExampleFile(i, fields), i, m) == ExampleFile(i, FilterFields(fields, m))
    ensures Removes(ExampleFile(i, fields), i, m) == DropsField(fields, m)
  {
    var d := ExampleFile(i, fields);
    assert Targets(d[0], i) && d[0].typ.methods == fields;
    if DropsField(fields, m) {
      assert Removes(d, i, m);
    }
  }

  lemma ExampleFilters(a: string, b: string)
    requires a != b
    ensures FilterFields([ExampleMethod(a), ExampleMethod(b)], a) == [ExampleMethod(b)]
    ensures FilterFields([ExampleMethod(a), ExampleMethod(b)], b) == [ExampleMethod(a)]
    ensures FilterFields([ExampleMethod(b)], b) == []
    ensures DropsField([ExampleMethod(a), ExampleMethod(b)], a)
    ensures DropsField([ExampleMethod(a), ExampleMethod(b)], b)
    ensures DropsField([ExampleMethod(b)], b)
  {
    var fa, fb := ExampleMethod(a), ExampleMethod(b);
    FilterPair(fa, fb, a);
    FilterPair(fa, fb, b);
    FilterSingle(fb, b);
    assert !Keeps([fa, fb][0], a);
    assert !Keeps([fa, fb][1], b);
    assert !Keeps([fb][0], b);
  }

  lemma FilterSingle(f: Field, methodName: string)
    ensures FilterFields([f], methodName) == if Keeps(f, methodName) then [f] else []
  {
    assert [f][..0] == [];
  }

  lemma FilterPair(f: Field, g: Field, methodName: string)
    ensures FilterFields([f, g], methodName)
            == (if Keeps(f, methodName) then [f] else []) + (if Keeps(g, methodName) then [g] else [])
  {
    assert [f, g][..1] == [f];
    FilterSingle(f, methodName);
  }

  lemma SweepSnoc(d0: seq<TypeSpec>, init: seq<Method>, c: Method, used: set<string>,
                  passes: (string, seq<TypeSpec>) -> bool, path: string)
    ensures Sweep(d0, init + [c], used, passes, path) == Step(Sweep(d0, init, used, passes, path), c, used, passes, path)
  {
    assert (init + [c])[..|init|] == init;
  }

  lemma IsolatedSnoc(d0: seq<TypeSpec>, init: seq<Method>, c: Method, used: set<string>,
                     passes: (string, seq<TypeSpec>) -> bool, path: string)
    ensures IsolatedReports(d0, init + [c], used, passes, path)
            == IsolatedReports(d0, init, used, passes, path)
               + (if Key(c.interfaceName, c.methodName) !in used && Removes(d0, c.interfaceName, c.methodName)
                     && passes(path, RemoveInDecls(d0, c.interfaceName, c.methodName))
                  then [c] else [])
  {
    assert (init + [c])[..|init|] == init;
  }

  /** A turn whose deletion changes the declarations but fails the checker keeps the deletion and reports nothing. */
  lemma StepFails(st: SweepState, c: Method, used: set<string>, passes: (string, seq<TypeSpec>) -> bool, path: string,
                  nd: seq<TypeSpec>)
    requires Key(c.interfaceName, c.methodName) !in used && Removes(st.decls, c.interfaceName, c.methodName)
    requires nd == RemoveInDecls(st.decls, c.interfaceName, c.methodName) && !passes(path, nd)
    ensures Step(st, c, used, passes, path) == SweepState(nd, st.reported)
  {
  }

  /** The first turn of the example: A is deleted, the checker fails, A stays deleted. */
  lemma ExampleFirstTurn(i: string, a: string, b: string, used: set<string>,
                         passes: (string, seq<TypeSpec>) -> bool, path: string)
    requires a != b && Key(i, a) !in used
    requires !passes(path, ExampleFile(i, [ExampleMethod(b)]))
    ensures Sweep(ExampleFile(i, [ExampleMethod(a), ExampleMethod(b)]), [Method(i, a)], used, passes, path)
            == SweepState(ExampleFile(i, [ExampleMethod(b)]), [])
  {
    var fa, fb := ExampleMethod(a), ExampleMethod(b);
    var d0 := ExampleFile(i, [fa, fb]);
    ExampleFilters(a, b);
    ExampleDelete(i, [fa, fb], a);
    SweepSnoc(d0, [], Method(i, a), used, passes, path);
    assert [] + [Method(i, a)] == [Method(i, a)];
    StepFails(SweepState(d0, []), Method(i, a), used, passes, path, ExampleFile(i, [fb]));
  }

  /** The second turn of the example: B is deleted from a file that has already lost A, and the checker fails again. */
  lemma ExampleSecondTurn(i: string, b: string, used: set<string>, passes: (string, seq<TypeSpec>) -> bool, path: string)
    requires Key(i, b) !in used && !passes(path, ExampleFile(i, []))
    ensures Step(SweepState(ExampleFile(i, [ExampleMethod(b)]), []), Method(i, b), used, passes, path)
            == SweepState(ExampleFile(i, []), [])
  {
    var fb := ExampleMethod(b);
    assert !Keeps([fb][0], b);
    assert [fb][..0] == [];
    assert FilterFields([fb], b) == [];
    ExampleDelete(i, [fb], b);
    StepFails(SweepState(ExampleFile(i, [fb]), []), Method(i, b), used, passes, path, ExampleFile(i, []));
  }

  /**
   * As written, a failed check hides later unused methods of the same file:
   * deleting A fails the checker and A stays deleted, so the check for B
   * fails too and nothing is reported.
   */
  lemma CompoundingDeletionsHideUnused(i: string, a: string, b: string, used: set<string>,
                                       passes: (string, seq<TypeSpec>) -> bool, path: string)
    requires a != b && Key(i, a) !in used && Key(i, b) !in used
    requires !passes(path, ExampleFile(i, [ExampleMethod(b)])) && !passes(path, ExampleFile(i, []))
    ensures FileResult(ExampleFile(i, [ExampleMethod(a), ExampleMethod(b)]), used, passes, path).reported == []
  {
    var d0 := ExampleFile(i, [ExampleMethod(a), ExampleMethod(b)]);
    ExampleCandidates(i, a, b);
    ExampleFirstTurn(i, a, b, used, passes, path);
    ExampleSecondTurn(i, b, used, passes, path);
    SweepSnoc(d0, [Method(i, a)], Method(i, b), used, passes, path);
    assert [Method(i, a)] + [Method(i, b)] == [Method(i, a), Method(i, b)];
  }

  /** Deleting either method of the example drops its field and leaves the other. */
  lemma ExampleRemovals(i: string, a: string, b: string)
    requires a != b
    ensures var d0 := ExampleFile(i, [ExampleMethod(a), ExampleMethod(b)]);
            && Removes(d0, i, a) && RemoveInDecls(d0, i, a) == ExampleFile(i, [ExampleMethod(b)])
            && Removes(d0, i, b) && RemoveInDecls(d0, i, b) == ExampleFile(i, [ExampleMethod(a)])
  {
    ExampleFilters(a, b);
    ExampleDelete(i, [ExampleMethod(a), ExampleMethod(b)], a);
    ExampleDelete(i, [ExampleMethod(a), ExampleMethod(b)], b);
  }

  /** Restoring the file between checks reports I.B for the same file and checker. */
  lemma IsolatedReportsUnused(i: string, a: string, b: string, used: set<string>,
                              passes: (string, seq<TypeSpec>) -> bool, path: string)
    requires a != b && Key(i, a) !in used && Key(i, b) !in used
    requires !passes(path, ExampleFile(i, [ExampleMethod(b)])) && passes(path, ExampleFile(i, [ExampleMethod(a)]))
    ensures var d0 := ExampleFile(i, [ExampleMethod(a), ExampleMethod(b)]);
            IsolatedReports(d0, Candidates(InterfacesOf(d0)), used, passes, path) == [Method(i, b)]
  {
    var d0 := ExampleFile(i, [ExampleMethod(a), ExampleMethod(b)]);
    ExampleCandidates(i, a, b);
    ExampleRemovals(i, a, b);
    IsolatedSnoc(d0, [], Method(i, a), used, passes, path);
    assert [] + [Method(i, a)] == [Method(i, a)];
    IsolatedSnoc(d0, [Method(i, a)], Method(i, b), used, passes, path);
    assert [Method(i, a)] + [Method(i, b)] == [Method(i, a), Method(i, b)];
  }
}
