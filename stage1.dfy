/**
 * Stage 1 of the two-stage pipeline (pkg/stage1/stage1.go): the
 * direct-evidence scanner. A method counts as used when some call `x.M(...)`
 * has an operand of a named type whose underlying type is an interface
 * declaring M with a signature identical to the one the call resolves to.
 *
 * Packages and files arrive as Go maps, so they are Dafny maps here and are
 * visited in an unspecified order; the nodes of one file are visited in
 * syntax-walk order.
 */
module Stage1 {
  import opened Common
  import opened GoTypes
  import opened GoAst

  /** A method found used: its package, interface, name and the signature the call resolved to. */
  datatype UsedMethod<S> = UsedMethod(pkgPath: string, interfaceName: string, methodName: string, signature: S)

  /** A parsed package: its files by path, and whether the type check of the package succeeds. */
  datatype Package<S> = Package(files: map<string, seq<Node<S>>>, typeChecks: bool)

  /** The interface declares a method `name` whose type is identical to `sig`. */
  predicate Declares<S>(iface: seq<Method<S>>, name: string, sig: S, eq: (S, S) -> bool)
  {
    exists i :: 0 <= i < |iface| && iface[i].name == name && eq(iface[i].sig, sig)
  }

  /**
   * checkMethodUsage: the guard chain. The node must be a call whose callee
   * is a selector; the operand's type must be known, have an interface as its
   * underlying type and be a named type; the selector must resolve to a
   * signature; and the interface must declare a method of that name and an
   * identical signature. The package path is filled in by the caller.
   */
  function Usage<S>(n: Node<S>, eq: (S, S) -> bool): Option<UsedMethod<S>>
  {
    if !n.CallNode? || !n.fun.SelectorCallee? then None
    else
      var s := n.fun.s;
      if s.baseType.None? then None
      else if !Underlying(s.baseType.value).Interface? then None
      else if !s.baseType.value.Named? then None
      else if s.selType.None? || !s.selType.value.Signature? then None
      else if Declares(Underlying(s.baseType.value).methods, s.sel, s.selType.value.sig, eq) then
        Some(UsedMethod("", s.baseType.value.name, s.sel, s.selType.value.sig))
      else None
  }

  function Stamp<S>(u: UsedMethod<S>, pkgPath: string): UsedMethod<S>
  {
    u.(pkgPath := pkgPath)
  }

  /** What the walk of one file appends, in node order. */
  function FileUsages<S>(nodes: seq<Node<S>>, pkgPath: string, eq: (S, S) -> bool): seq<UsedMethod<S>>
  {
    if nodes == [] then []
    else
      var u := Usage(nodes[|nodes| - 1], eq);
      FileUsages(nodes[..|nodes| - 1], pkgPath, eq) + (if u.Some? then [Stamp(u.value, pkgPath)] else [])
  }

  /** What the walks of the files of a package append, taking the files in the order given. */
  function PackageUsages<S>(files: map<string, seq<Node<S>>>, order: seq<string>, pkgPath: string, eq: (S, S) -> bool)
    : seq<UsedMethod<S>>
  {
    if order == [] then []
    else
      var f := order[|order| - 1];
      PackageUsages(files, order[..|order| - 1], pkgPath, eq) + (if f in files then FileUsages(files[f], pkgPath, eq) else [])
  }

  /** The files of a package that the configuration does not ignore. */
  function KeptFiles<S>(files: map<string, seq<Node<S>>>, ignore: string -> bool): set<string>
  {
    set f | f in files && !ignore(f)
  }

  /** `order` lists every element of `keys` exactly once. */
  ghost predicate IsOrdering(order: seq<string>, keys: set<string>)
  {
    (forall i, j :: 0 <= i < j < |order| ==> order[i] != order[j]) && (forall f :: f in order <==> f in keys)
  }

  function Lookup<S>(m: map<string, seq<UsedMethod<S>>>, k: string): seq<UsedMethod<S>>
  {
    if k in m then m[k] else []
  }

  /** checkMethodUsage, with its lookup loop over the interface's methods. */
  method CheckMethodUsage<S>(n: Node<S>, eq: (S, S) -> bool) returns (used: Option<UsedMethod<S>>, ok: bool)
    ensures used == Usage(n, eq)
    ensures ok <==> used.Some?
  {
    if !n.CallNode? || !n.fun.SelectorCallee? {
      return None, false;
    }
    var s := n.fun.s;
    if s.baseType.None? {
      return None, false;
    }
    var fieldType := s.baseType.value;
    var iface := Underlying(fieldType);
    if !iface.Interface? {
      return None, false;
    }
    if !fieldType.Named? {
      return None, false;
    }
    var interfaceName := fieldType.name;
    if s.selType.None? {
      return None, false;
    }
    var methodType := s.selType.value;
    if !methodType.Signature? {
      return None, false;
    }
    var signature := methodType.sig;
    var i := 0;
    while i < |iface.methods|
      invariant 0 <= i <= |iface.methods|
      invariant forall k :: 0 <= k < i ==> !(iface.methods[k].name == s.sel && eq(iface.methods[k].sig, signature))
    {
      var candidate := iface.methods[i];
      if candidate.name == s.sel {
        if eq(candidate.sig, signature) {
          return Some(UsedMethod("", interfaceName, s.sel, signature)), true;
        }
      }
      i := i + 1;
    }
    return None, false;
  }

  /** The walk of one file: every node the guard chain accepts, stamped with the package path. */
  method ScanFile<S>(nodes: seq<Node<S>>, pkgPath: string, eq: (S, S) -> bool) returns (found: seq<UsedMethod<S>>)
    ensures found == FileUsages(nodes, pkgPath, eq)
  {
    found := [];
    var i := 0;
    while i < |nodes|
      invariant 0 <= i <= |nodes|
      invariant found == FileUsages(nodes[..i], pkgPath, eq)
    {
      assert nodes[..i + 1][..i] == nodes[..i];
      var usage, ok := CheckMethodUsage(nodes[i], eq);
      if ok {
        var stamped := usage.value.(pkgPath := pkgPath);
        found := found + [stamped];
      }
      i := i + 1;
    }
    assert nodes[..i] == nodes;
  }

  /** The files loop of one type-checked package, in an unspecified order; ignored files are passed over. */
  method ScanPackage<S>(pkgPath: string, files: map<string, seq<Node<S>>>, ignore: string -> bool, eq: (S, S) -> bool)
    returns (found: seq<UsedMethod<S>>, ghost order: seq<string>)
    ensures IsOrdering(order, KeptFiles(files, ignore))
    ensures found == PackageUsages(files, order, pkgPath, eq)
    ensures forall u :: u in found <==> exists f :: f in KeptFiles(files, ignore) && u in FileUsages(files[f], pkgPath, eq)
  {
    found := [];
    order := [];
    var remaining := files.Keys;
    while remaining != {}
      invariant remaining <= files.Keys
      invariant forall i, j :: 0 <= i < j < |order| ==> order[i] != order[j]
      invariant forall f :: f in order <==> f in KeptFiles(files, ignore) && f !in remaining
      invariant found == PackageUsages(files, order, pkgPath, eq)
      decreases |remaining|
    {
      var filePath :| filePath in remaining;
      remaining := remaining - {filePath};
      if ignore(filePath) {
        continue;
      }
      var fileFound := ScanFile(files[filePath], pkgPath, eq);
      assert (order + [filePath])[..|order|] == order;
      found := found + fileFound;
      order := order + [filePath];
    }
    PackageUsagesSound(files, order, pkgPath, eq);
    forall u | exists f :: f in KeptFiles(files, ignore) && u in FileUsages(files[f], pkgPath, eq)
      ensures u in found
    {
      var f :| f in KeptFiles(files, ignore) && u in FileUsages(files[f], pkgPath, eq);
      var k :| 0 <= k < |order| && order[k] == f;
    }
  }

  /**
   * FindUsedMethods: packages whose type check fails are passed over; every
   * other package maps to what the walks of its kept files append, in some
   * order of those files, and has an entry only when something was appended.
   */
  method FindUsedMethods<S>(pkgs: map<string, Package<S>>, ignore: string -> bool, eq: (S, S) -> bool)
    returns (usedMethods: map<string, seq<UsedMethod<S>>>, ghost order: map<string, seq<string>>)
    ensures order.Keys == set p | p in pkgs && pkgs[p].typeChecks
    ensures usedMethods.Keys <= order.Keys
    ensures forall p :: p in order ==> IsOrdering(order[p], KeptFiles(pkgs[p].files, ignore))
    ensures forall p :: p in order ==> Lookup(usedMethods, p) == PackageUsages(pkgs[p].files, order[p], p, eq)
    ensures forall p :: p in usedMethods ==> usedMethods[p] != []
  {
    usedMethods := map[];
    order := map[];
    var remaining := pkgs.Keys;
    while remaining != {}
      invariant remaining <= pkgs.Keys
      invariant order.Keys == set p | p in pkgs && p !in remaining && pkgs[p].typeChecks
      invariant usedMethods.Keys <= order.Keys
      invariant forall p :: p in order ==> IsOrdering(order[p], KeptFiles(pkgs[p].files, ignore))
      invariant forall p :: p in order ==> Lookup(usedMethods, p) == PackageUsages(pkgs[p].files, order[p], p, eq)
      invariant forall p :: p in usedMethods ==> usedMethods[p] != []
      decreases |remaining|
    {
      var pkgPath :| pkgPath in remaining;
      remaining := remaining - {pkgPath};
      var pkg := pkgs[pkgPath];
      if !pkg.typeChecks {
        continue;
      }
      var found, fileOrder := ScanPackage(pkgPath, pkg.files, ignore, eq);
      if found != [] {
        usedMethods := usedMethods[pkgPath := found];
      }
      order := order[pkgPath := fileOrder];
    }
  }

  // ---------------------------------------------------------------------
  // Lemmas

  /**
   * The guard chain accepts exactly the calls `x.M(...)` whose operand is of
   * a named type with an interface underneath that declares M with a
   * signature identical to the call's, and records that type's name and M.
   */
  lemma UsageCharacterized<S>(n: Node<S>, eq: (S, S) -> bool)
    ensures Usage(n, eq).Some? <==>
              n.CallNode? && n.fun.SelectorCallee?
              && var s := n.fun.s;
                 s.baseType.Some? && s.baseType.value.Named? && s.baseType.value.underlying.Interface?
                 && s.selType.Some? && s.selType.value.Signature?
                 && Declares(s.baseType.value.underlying.methods, s.sel, s.selType.value.sig, eq)
    ensures Usage(n, eq).Some? ==>
              && Usage(n, eq).value.interfaceName == n.fun.s.baseType.value.name
              && Usage(n, eq).value.methodName == n.fun.s.sel
              && Usage(n, eq).value.pkgPath == ""
              && Declares(n.fun.s.baseType.value.underlying.methods, n.fun.s.sel, Usage(n, eq).value.signature, eq)
  {
  }

  /** Method values are never recorded: a selector that is not called is not a use. */
  lemma MethodValueNotRecorded<S>(s: SelectorExpr<S>, eq: (S, S) -> bool)
    ensures Usage(SelectorNode(s), eq) == None
    ensures Usage(CallNode(OtherCallee), eq) == None
  {
  }

  /**
   * A call of Process on a ProcessorV1 value records ProcessorV1.Process and
   * nothing about ProcessorV2, even though ProcessorV2 also declares a
   * Process method.
   */
  lemma SameNameKeptApart<S(!new)>(s1: S, eq: (S, S) -> bool)
    requires IsEquivalence(eq)
    ensures var v1 := Named("ProcessorV1", Interface([Method("Process", s1)]));
            var call := CallNode(SelectorCallee(SelectorExpr(OtherBase, "Process", Some(v1), Some(Signature(s1)))));
            Usage(call, eq) == Some(UsedMethod("", "ProcessorV1", "Process", s1))
  {
    assert eq(s1, s1);
    assert [Method("Process", s1)][0].name == "Process";
  }

  /** Every entry of a file's walk carries the package path and comes from an accepted node of that file. */
  lemma FileUsagesSound<S>(nodes: seq<Node<S>>, pkgPath: string, eq: (S, S) -> bool)
    ensures forall u :: u in FileUsages(nodes, pkgPath, eq) <==>
              exists i :: 0 <= i < |nodes| && Usage(nodes[i], eq).Some? && u == Stamp(Usage(nodes[i], eq).value, pkgPath)
    ensures forall u :: u in FileUsages(nodes, pkgPath, eq) ==> u.pkgPath == pkgPath
  {
    forall u | u in FileUsages(nodes, pkgPath, eq)
      ensures exists i :: 0 <= i < |nodes| && Usage(nodes[i], eq).Some? && u == Stamp(Usage(nodes[i], eq).value, pkgPath)
    {
      var i := FileUsageNode(nodes, pkgPath, eq, u);
    }
    forall i | 0 <= i < |nodes| && Usage(nodes[i], eq).Some?
      ensures Stamp(Usage(nodes[i], eq).value, pkgPath) in FileUsages(nodes, pkgPath, eq)
    {
      FileUsageFound(nodes, pkgPath, eq, i);
    }
  }

  /** Every entry of a file's walk comes from one of its accepted nodes. */
  lemma {:induction false} FileUsageNode<S>(nodes: seq<Node<S>>, pkgPath: string, eq: (S, S) -> bool, u: UsedMethod<S>)
    returns (i: nat)
    requires u in FileUsages(nodes, pkgPath, eq)
    ensures i < |nodes| && Usage(nodes[i], eq).Some? && u == Stamp(Usage(nodes[i], eq).value, pkgPath)
  {
    var n := |nodes| - 1;
    var init := nodes[..n];
    var last := Usage(nodes[n], eq);
    assert FileUsages(nodes, pkgPath, eq) == FileUsages(init, pkgPath, eq) + (if last.Some? then [Stamp(last.value, pkgPath)] else []);
    if u in FileUsages(init, pkgPath, eq) {
      i := FileUsageNode(init, pkgPath, eq, u);
      assert nodes[i] == init[i];
    } else {
      i := n;
    }
  }

  /** Every accepted node of a file has its entry in the file's walk. */
  lemma {:induction false} FileUsageFound<S>(nodes: seq<Node<S>>, pkgPath: string, eq: (S, S) -> bool, i: nat)
    requires i < |nodes| && Usage(nodes[i], eq).Some?
    ensures Stamp(Usage(nodes[i], eq).value, pkgPath) in FileUsages(nodes, pkgPath, eq)
  {
    var n := |nodes| - 1;
    var init := nodes[..n];
    var last := Usage(nodes[n], eq);
    assert FileUsages(nodes, pkgPath, eq) == FileUsages(init, pkgPath, eq) + (if last.Some? then [Stamp(last.value, pkgPath)] else []);
    if i < n {
      assert init[i] == nodes[i];
      FileUsageFound(init, pkgPath, eq, i);
    }
  }

  /** A package's entries are exactly the accepted nodes of the files listed, each stamped with the package path. */
  lemma PackageUsagesSound<S>(files: map<string, seq<Node<S>>>, order: seq<string>, pkgPath: string, eq: (S, S) -> bool)
    ensures forall u :: u in PackageUsages(files, order, pkgPath, eq) <==>
              exists k :: 0 <= k < |order| && order[k] in files && u in FileUsages(files[order[k]], pkgPath, eq)
  {
    forall u | u in PackageUsages(files, order, pkgPath, eq)
      ensures exists k :: 0 <= k < |order| && order[k] in files && u in FileUsages(files[order[k]], pkgPath, eq)
    {
      var k := PackageUsageFile(files, order, pkgPath, eq, u);
    }
    forall k, u | 0 <= k < |order| && order[k] in files && u in FileUsages(files[order[k]], pkgPath, eq)
      ensures u in PackageUsages(files, order, pkgPath, eq)
    {
      PackageUsageFound(files, order, pkgPath, eq, k, u);
    }
  }

  /** Every entry of a package's walk comes from one of the files listed. */
  lemma {:induction false} PackageUsageFile<S>(files: map<string, seq<Node<S>>>, order: seq<string>, pkgPath: string,
                                               eq: (S, S) -> bool, u: UsedMethod<S>)
    returns (k: nat)
    requires u in PackageUsages(files, order, pkgPath, eq)
    ensures k < |order| && order[k] in files && u in FileUsages(files[order[k]], pkgPath, eq)
  {
    var n := |order| - 1;
    var init := order[..n];
    var f := order[n];
    assert PackageUsages(files, order, pkgPath, eq)
           == PackageUsages(files, init, pkgPath, eq) + (if f in files then FileUsages(files[f], pkgPath, eq) else []);
    if u in PackageUsages(files, init, pkgPath, eq) {
      k := PackageUsageFile(files, init, pkgPath, eq, u);
      assert order[k] == init[k];
    } else {
      k := n;
    }
  }

  /** Every entry of the walk of a file listed is in the package's walk. */
  lemma {:induction false} PackageUsageFound<S>(files: map<string, seq<Node<S>>>, order: seq<string>, pkgPath: string,
                                                eq: (S, S) -> bool, k: nat, u: UsedMethod<S>)
    requires k < |order| && order[k] in files && u in FileUsages(files[order[k]], pkgPath, eq)
    ensures u in PackageUsages(files, order, pkgPath, eq)
  {
    var n := |order| - 1;
    var init := order[..n];
    var f := order[n];
    assert PackageUsages(files, order, pkgPath, eq)
           == PackageUsages(files, init, pkgPath, eq) + (if f in files then FileUsages(files[f], pkgPath, eq) else []);
    if k < n {
      assert init[k] == order[k];
      PackageUsageFound(files, init, pkgPath, eq, k, u);
    }
  }

  /**
   * What FindUsedMethods records, whatever order the maps are visited in: a
   * use is recorded under a package exactly when the package type-checks and
   * one of its files that the configuration keeps holds the accepted call.
   */
  lemma RecordedExactly<S>(pkgs: map<string, Package<S>>, ignore: string -> bool, eq: (S, S) -> bool,
                           usedMethods: map<string, seq<UsedMethod<S>>>, order: map<string, seq<string>>,
                           p: string, u: UsedMethod<S>)
    requires order.Keys == set p | p in pkgs && pkgs[p].typeChecks
    requires forall p :: p in order ==> IsOrdering(order[p], KeptFiles(pkgs[p].files, ignore))
    requires forall p :: p in order ==> Lookup(usedMethods, p) == PackageUsages(pkgs[p].files, order[p], p, eq)
    requires usedMethods.Keys <= order.Keys
    ensures u in Lookup(usedMethods, p) <==>
              p in pkgs && pkgs[p].typeChecks
              && exists f, i :: f in pkgs[p].files && !ignore(f) && 0 <= i < |pkgs[p].files[f]|
                                && Usage(pkgs[p].files[f][i], eq).Some? && u == Stamp(Usage(pkgs[p].files[f][i], eq).value, p)
  {
    if p in order {
      var files := pkgs[p].files;
      PackageUsagesSound(files, order[p], p, eq);
      if u in Lookup(usedMethods, p) {
        var k :| 0 <= k < |order[p]| && order[p][k] in files && u in FileUsages(files[order[p][k]], p, eq);
        FileUsagesSound(files[order[p][k]], p, eq);
        assert order[p][k] in KeptFiles(files, ignore);
      }
      if exists f, i :: f in files && !ignore(f) && 0 <= i < |files[f]|
                        && Usage(files[f][i], eq).Some? && u == Stamp(Usage(files[f][i], eq).value, p) {
        var f, i :| f in files && !ignore(f) && 0 <= i < |files[f]|
                    && Usage(files[f][i], eq).Some? && u == Stamp(Usage(files[f][i], eq).value, p);
        assert f in KeptFiles(files, ignore);
        var k :| 0 <= k < |order[p]| && order[p][k] == f;
        FileUsagesSound(files[f], p, eq);
      }
    }
  }
}
