/**
 * The single-pass linter's rendering of syntax to text: type expressions,
 * method signatures and type-parameter lists (pkg/linter/linter.go).
 *
 * The rendering is only ever displayed, so its partner here is a parser that
 * reads back every type expression the rendering does not lose information
 * about: rendering is injective on those.
 */
module LinterRender {
  import opened Common
  import opened GoStrings
  import opened GoAst

  /** typeToString: the textual form of a type expression. */
  function TypeToString(e: TypeExpr): string
  {
    match e
    case Ident(name) => name
    case Star(x) => "*" + TypeToString(x)
    case Selector(x, sel) => TypeToString(x) + "." + sel
    case ArrayType(_, elt) => "[]" + TypeToString(elt)
    case MapType(k, v) => "map[" + TypeToString(k) + "]" + TypeToString(v)
    case InterfaceType(_) => "interface{}"
    case ChanType(_, v) => "chan " + TypeToString(v)
    case _ => "unknown"
  }

  /** The entries a parameter field contributes: `name type` per name, or the bare type. */
  function ParamFieldEntries(f: Field): seq<string>
  {
    var t := TypeToString(f.typ);
    if |f.names| > 0 then seq(|f.names|, k requires 0 <= k < |f.names| => f.names[k] + " " + t)
    else [t]
  }

  function ParamEntries(params: seq<Field>): seq<string>
  {
    if params == [] then []
    else ParamEntries(params[..|params| - 1]) + ParamFieldEntries(params[|params| - 1])
  }

  /** The number of entries a parameter list renders to: one per name, one per unnamed field. */
  function ParamSlots(params: seq<Field>): nat
  {
    if params == [] then 0
    else
      var f := params[|params| - 1];
      ParamSlots(params[..|params| - 1]) + (if |f.names| > 0 then |f.names| else 1)
  }

  /** One rendered type per result field. */
  function ResultTypes(results: seq<Field>): (r: seq<string>)
    ensures |r| == |results|
  {
    seq(|results|, k requires 0 <= k < |results| => TypeToString(results[k].typ))
  }

  /** getMethodSignature: `(params) result`, `(params) (results)` or `(params)`; "" for a non-function field. */
  function MethodSignature(f: Field): string
  {
    match f.typ
    case FuncType(params, results) =>
      var head := if params.Some? then "(" + Join(ParamEntries(params.value), ", ") + ")" else "()";
      (match results
       case None => head
       case Some(rs) =>
         var ts := ResultTypes(rs);
         head + " " + (if |ts| == 1 then ts[0] else "(" + Join(ts, ", ") + ")"))
    case _ => ""
  }

  /** The entries of a type-parameter list: `name type` per name (just `name` when the type is nil). */
  function TypeParamEntries(fields: seq<Field>): seq<string>
  {
    if fields == [] then []
    else
      var f := fields[|fields| - 1];
      var suffix := if f.typ.NoExpr? then "" else " " + TypeToString(f.typ);
      TypeParamEntries(fields[..|fields| - 1]) + seq(|f.names|, k requires 0 <= k < |f.names| => f.names[k] + suffix)
  }

  /** getTypeParamsString: "" for a missing or empty list, otherwise the bracketed entries. */
  function TypeParamsString(typeParams: Option<seq<Field>>): (r: string)
    ensures r == "" <==> typeParams.None? || typeParams.value == []
    ensures r != "" ==> r[0] == '[' && r[|r| - 1] == ']'
  {
    if typeParams.None? || |typeParams.value| == 0 then ""
    else "[" + Join(TypeParamEntries(typeParams.value), ", ") + "]"
  }

  /** A parameter list renders to one entry per declared name, and one per unnamed field. */
  lemma {:induction false} ParamEntriesCount(params: seq<Field>)
    ensures |ParamEntries(params)| == ParamSlots(params)
  {
    if params != [] {
      ParamEntriesCount(params[..|params| - 1]);
    }
  }

  /** The entries of a prefix of a parameter list are a prefix of the list's entries. */
  lemma {:induction false} ParamEntriesPrefix(params: seq<Field>, n: nat)
    requires n <= |params|
    ensures ParamEntries(params[..n]) <= ParamEntries(params)
  {
    if n < |params| {
      var init := params[..|params| - 1];
      ParamEntriesPrefix(init, n);
      assert init[..n] == params[..n];
    } else {
      assert params[..n] == params;
    }
  }

  /**
   * The entries of field i sit, in order, right after those of the fields
   * before it: `name type` for each of its names, or its bare type, with the
   * type rendered by typeToString.
   */
  lemma ParamEntriesOfField(params: seq<Field>, i: nat)
    requires i < |params|
    ensures ParamSlots(params[..i]) <= ParamSlots(params[..i + 1]) <= |ParamEntries(params)|
    ensures ParamEntries(params)[ParamSlots(params[..i])..ParamSlots(params[..i + 1])] == ParamFieldEntries(params[i])
    ensures forall k :: ParamSlots(params[..i]) <= k < ParamSlots(params[..i + 1]) ==>
              HasSuffix(ParamEntries(params)[k], TypeToString(params[i].typ))
  {
    var pre := params[..i + 1];
    assert pre[..i] == params[..i];
    ParamEntriesCount(params[..i]);
    ParamEntriesCount(pre);
    ParamEntriesPrefix(params, i + 1);
    var a := ParamEntries(params[..i]);
    var entries := ParamEntries(params);
    assert ParamEntries(pre) == a + ParamFieldEntries(params[i]);
    assert entries[|a|..|ParamEntries(pre)|] == ParamFieldEntries(params[i]);
    var t := TypeToString(params[i].typ);
    forall k | |a| <= k < |ParamEntries(pre)|
      ensures HasSuffix(entries[k], t)
    {
      var e := ParamFieldEntries(params[i])[k - |a|];
      assert entries[k] == e;
      if |params[i].names| > 0 {
        assert e == params[i].names[k - |a|] + " " + t;
        assert e[|e| - |t|..] == t;
      }
    }
  }

  /** A method with one result field renders that result's type last, after a space. */
  lemma SingleResultLast(f: Field)
    requires f.typ.FuncType? && f.typ.results.Some? && |f.typ.results.value| == 1
    ensures HasSuffix(MethodSignature(f), " " + TypeToString(f.typ.results.value[0].typ))
  {
    var sig := MethodSignature(f);
    var t := " " + TypeToString(f.typ.results.value[0].typ);
    assert sig[|sig| - |t|..] == t;
  }

  /** A type-parameter list renders to exactly one entry per declared name. */
  lemma {:induction false} TypeParamEntriesCount(fields: seq<Field>)
    ensures |TypeParamEntries(fields)| == NameCount(fields)
  {
    if fields != [] {
      TypeParamEntriesCount(fields[..|fields| - 1]);
    }
  }

  /** A method field renders to a non-empty text that opens the parameter list iff it has a function type. */
  lemma MethodSignatureShape(f: Field)
    ensures f.typ.FuncType? <==> MethodSignature(f) != ""
    ensures f.typ.FuncType? ==> MethodSignature(f)[0] == '('
  {
  }

  // ---------------------------------------------------------------------
  // Reading the rendering back

  predicate IsIdentChar(c: char)
  {
    ('a' <= c <= 'z') || ('A' <= c <= 'Z') || ('0' <= c <= '9') || c == '_'
  }

  predicate IsIdentName(s: string)
  {
    |s| > 0 && forall k :: 0 <= k < |s| ==> IsIdentChar(s[k])
  }

  /**
   * The type expressions whose rendering loses nothing: identifiers that are
   * plain names, qualified names `pkg.T`, slices without a length,
   * bidirectional channels, empty interface literals, pointers and maps of
   * these.
   */
  predicate Renderable(e: TypeExpr)
  {
    match e
    case Ident(n) => IsIdentName(n)
    case Star(x) => Renderable(x)
    case Selector(x, sel) => x.Ident? && IsIdentName(x.name) && IsIdentName(sel)
    case ArrayType(len, elt) => len.None? && Renderable(elt)
    case MapType(k, v) => Renderable(k) && Renderable(v)
    case InterfaceType(ms) => ms == []
    case ChanType(d, v) => d == Both && Renderable(v)
    case _ => false
  }

  /** The length of the longest prefix of identifier characters. */
  function IdentLen(s: string): (n: nat)
    ensures n <= |s|
    ensures forall k :: 0 <= k < n ==> IsIdentChar(s[k])
    ensures n < |s| ==> !IsIdentChar(s[n])
  {
    if s == [] || !IsIdentChar(s[0]) then 0 else 1 + IdentLen(s[1..])
  }

  /** Parses one rendered type expression at the start of `s`, returning it and the text after it. */
  function ParseType(s: string): (r: Option<(TypeExpr, string)>)
    ensures r.Some? ==> |r.value.1| < |s|
    decreases |s|
  {
    if "*" <= s then
      match ParseType(s[1..])
      case None => None
      case Some(p) => Some((Star(p.0), p.1))
    else if "[]" <= s then
      match ParseType(s[2..])
      case None => None
      case Some(p) => Some((ArrayType(None, p.0), p.1))
    else if "map[" <= s then
      match ParseType(s[4..])
      case None => None
      case Some(pk) =>
        if "]" <= pk.1 then
          match ParseType(pk.1[1..])
          case None => None
          case Some(pv) => Some((MapType(pk.0, pv.0), pv.1))
        else None
    else if "chan " <= s then
      match ParseType(s[5..])
      case None => None
      case Some(p) => Some((ChanType(Both, p.0), p.1))
    else if "interface{}" <= s then
      Some((InterfaceType([]), s[11..]))
    else
      ParseName(s)
  }

  /** A name `T` or a qualified name `pkg.T` at the start of `s`. */
  function ParseName(s: string): (r: Option<(TypeExpr, string)>)
    ensures r.Some? ==> |r.value.1| < |s|
  {
    var n := IdentLen(s);
    if n == 0 then None
    else if n < |s| && s[n] == '.' then
      var m := IdentLen(s[n + 1..]);
      if m == 0 then None
      else Some((Selector(Ident(s[..n]), s[n + 1..n + 1 + m]), s[n + 1 + m..]))
    else Some((Ident(s[..n]), s[n..]))
  }

  /** A text that starts with an identifier followed by `]`, `.` or nothing starts with no keyword or operator. */
  lemma IdentNotLiteral(n: string, t: string, lit: string, p: nat)
    requires IsIdentName(n)
    requires t == [] || t[0] == ']' || t[0] == '.'
    requires p < |lit| && !IsIdentChar(lit[p]) && lit[p] != ']' && lit[p] != '.'
    requires forall q :: 0 <= q < p ==> IsIdentChar(lit[q])
    ensures !(lit <= n + t)
  {
    var s := n + t;
    var i := if p < |n| then p else |n|;
    if i < |s| {
      assert s[i] != lit[i];
    }
  }

  lemma NotAnyLiteral(n: string, t: string)
    requires IsIdentName(n)
    requires t == [] || t[0] == ']' || t[0] == '.'
    ensures !("*" <= n + t) && !("[]" <= n + t) && !("map[" <= n + t)
    ensures !("chan " <= n + t) && !("interface{}" <= n + t)
  {
    IdentNotLiteral(n, t, "*", 0);
    IdentNotLiteral(n, t, "[]", 0);
    IdentNotLiteral(n, t, "map[", 3);
    IdentNotLiteral(n, t, "chan ", 4);
    IdentNotLiteral(n, t, "interface{}", 9);
  }

  lemma IdentLenOf(n: string, t: string)
    requires IsIdentName(n)
    requires t == [] || !IsIdentChar(t[0])
    ensures IdentLen(n + t) == |n|
  {
    var s := n + t;
    assert forall k :: 0 <= k < |n| ==> IsIdentChar(s[k]);
    assert |n| < |s| ==> !IsIdentChar(s[|n|]);
  }

  /**
   * Parsing a rendered type expression gives it back, whatever text follows
   * it, as long as that text is empty or closes a map key.
   */
  lemma {:induction false} ParseRendered(e: TypeExpr, rest: string)
    requires Renderable(e)
    requires rest == [] || rest[0] == ']'
    ensures ParseType(TypeToString(e) + rest) == Some((e, rest))
  {
    match e
    case Ident(n) =>
      ParseRenderedIdent(n, rest);
    case Selector(x, sel) =>
      ParseRenderedSelector(x.name, sel, rest);
    case Star(x) =>
      ParseRendered(x, rest);
      ParseRenderedStar(x, rest);
    case ArrayType(_, elt) =>
      ParseRendered(elt, rest);
      ParseRenderedSlice(elt, rest);
    case MapType(k, v) =>
      ParseRendered(k, "]" + (TypeToString(v) + rest));
      ParseRendered(v, rest);
      ParseRenderedMap(k, v, rest);
    case ChanType(_, v) =>
      ParseRendered(v, rest);
      ParseRenderedChan(v, rest);
    case InterfaceType(_) =>
      ParseEmptyInterface(rest);
  }

  lemma ParseRenderedStar(x: TypeExpr, rest: string)
    requires ParseType(TypeToString(x) + rest) == Some((x, rest))
    ensures ParseType(TypeToString(Star(x)) + rest) == Some((Star(x), rest))
  {
    var u := TypeToString(x) + rest;
    calc {
      ParseType(TypeToString(Star(x)) + rest);
      { RenderedPrefix("*", x, Star(x), rest); }
      ParseType("*" + u);
      { ParseStar(u); }
      Some((Star(x), rest));
    }
  }

  lemma ParseRenderedSlice(elt: TypeExpr, rest: string)
    requires ParseType(TypeToString(elt) + rest) == Some((elt, rest))
    ensures ParseType(TypeToString(ArrayType(None, elt)) + rest) == Some((ArrayType(None, elt), rest))
  {
    var u := TypeToString(elt) + rest;
    calc {
      ParseType(TypeToString(ArrayType(None, elt)) + rest);
      { RenderedPrefix("[]", elt, ArrayType(None, elt), rest); }
      ParseType("[]" + u);
      { ParseSlice(u); }
      Some((ArrayType(None, elt), rest));
    }
  }

  lemma ParseRenderedChan(v: TypeExpr, rest: string)
    requires ParseType(TypeToString(v) + rest) == Some((v, rest))
    ensures ParseType(TypeToString(ChanType(Both, v)) + rest) == Some((ChanType(Both, v), rest))
  {
    var u := TypeToString(v) + rest;
    calc {
      ParseType(TypeToString(ChanType(Both, v)) + rest);
      { RenderedPrefix("chan ", v, ChanType(Both, v), rest); }
      ParseType("chan " + u);
      { ParseChan(u); }
      Some((ChanType(Both, v), rest));
    }
  }

  lemma ParseRenderedMap(k: TypeExpr, v: TypeExpr, rest: string)
    requires ParseType(TypeToString(k) + ("]" + (TypeToString(v) + rest))) == Some((k, "]" + (TypeToString(v) + rest)))
    requires ParseType(TypeToString(v) + rest) == Some((v, rest))
    ensures ParseType(TypeToString(MapType(k, v)) + rest) == Some((MapType(k, v), rest))
  {
    var tk, tv := TypeToString(k), TypeToString(v);
    var tail := "]" + (tv + rest);
    calc {
      ParseType(TypeToString(MapType(k, v)) + rest);
      { RenderedMap(k, v, rest); }
      ParseType("map[" + (tk + tail));
      { ParseMap(tk + tail); }
      ParseMapValue(ParseType(tk + tail));
      ParseMapValue(Some((k, tail)));
      { ParseMapTail(tv + rest, k); }
      Some((MapType(k, v), rest));
    }
  }

  /** The text of a pointer, slice or channel type is its prefix before the text of its operand. */
  lemma RenderedPrefix(pre: string, x: TypeExpr, e: TypeExpr, rest: string)
    requires TypeToString(e) == pre + TypeToString(x)
    ensures TypeToString(e) + rest == pre + (TypeToString(x) + rest)
  {
  }

  lemma RenderedMap(k: TypeExpr, v: TypeExpr, rest: string)
    ensures TypeToString(MapType(k, v)) + rest == "map[" + (TypeToString(k) + ("]" + (TypeToString(v) + rest)))
  {
    var tk, tv := TypeToString(k), TypeToString(v);
    assert TypeToString(MapType(k, v)) == "map[" + tk + "]" + tv;
  }

  lemma ParseStar(u: string)
    ensures ParseType("*" + u) == (match ParseType(u) case None => None case Some(p) => Some((Star(p.0), p.1)))
  {
    assert ("*" + u)[1..] == u;
  }

  lemma ParseSlice(u: string)
    ensures ParseType("[]" + u) == (match ParseType(u) case None => None case Some(p) => Some((ArrayType(None, p.0), p.1)))
  {
    var s := "[]" + u;
    assert s[0] == '[';
    assert s[2..] == u;
  }

  lemma ParseChan(u: string)
    ensures ParseType("chan " + u) == (match ParseType(u) case None => None case Some(p) => Some((ChanType(Both, p.0), p.1)))
  {
    var s := "chan " + u;
    assert s[0] == 'c';
    assert s[..5] == "chan ";
    assert s[5..] == u;
  }

  lemma ParseEmptyInterface(rest: string)
    ensures ParseType("interface{}" + rest) == Some((InterfaceType([]), rest))
  {
    var s := "interface{}" + rest;
    assert s[0] == 'i';
    assert s[..11] == "interface{}";
    assert s[11..] == rest;
  }

  /** What ParseType makes of a map type, given the parse of the text after `map[`. */
  function ParseMapValue(pk: Option<(TypeExpr, string)>): Option<(TypeExpr, string)>
  {
    match pk
    case None => None
    case Some(pk) =>
      if "]" <= pk.1 then
        match ParseType(pk.1[1..])
        case None => None
        case Some(pv) => Some((MapType(pk.0, pv.0), pv.1))
      else None
  }

  lemma ParseMap(u: string)
    ensures ParseType("map[" + u) == ParseMapValue(ParseType(u))
  {
    var s := "map[" + u;
    assert s[0] == 'm';
    assert s[..4] == "map[";
    assert s[4..] == u;
  }

  lemma ParseMapTail(w: string, k: TypeExpr)
    ensures ParseMapValue(Some((k, "]" + w))) == (match ParseType(w) case None => None case Some(pv) => Some((MapType(k, pv.0), pv.1)))
  {
    assert ("]" + w)[1..] == w;
  }

  lemma ParseRenderedIdent(n: string, rest: string)
    requires IsIdentName(n)
    requires rest == [] || rest[0] == ']'
    ensures ParseType(n + rest) == Some((Ident(n), rest))
  {
    var s := n + rest;
    NotAnyLiteral(n, rest);
    IdentLenOf(n, rest);
    assert s[..|n|] == n && s[|n|..] == rest;
    assert ParseName(s) == Some((Ident(n), rest));
  }

  lemma ParseRenderedSelector(x: string, sel: string, rest: string)
    requires IsIdentName(x) && IsIdentName(sel)
    requires rest == [] || rest[0] == ']'
    ensures ParseType(x + "." + sel + rest) == Some((Selector(Ident(x), sel), rest))
  {
    var t := "." + sel + rest;
    assert x + "." + sel + rest == x + t;
    NotAnyLiteral(x, t);
    ParseNameSelector(x, sel, rest);
  }

  lemma ParseNameSelector(x: string, sel: string, rest: string)
    requires IsIdentName(x) && IsIdentName(sel)
    requires rest == [] || rest[0] == ']'
    ensures ParseName(x + ("." + sel + rest)) == Some((Selector(Ident(x), sel), rest))
  {
    var u := sel + rest;
    IdentLenOf(sel, rest);
    assert u[..|sel|] == sel && u[|sel|..] == rest;
    var t := "." + sel + rest;
    assert t == ['.'] + u;
    IdentLenOf(x, t);
    ParseNameQualified(x, u, |sel|);
  }

  /** ParseName on a text that starts with `pkg.T`, given the lengths of the two identifiers. */
  lemma ParseNameQualified(x: string, u: string, m: nat)
    requires 0 < |x| && IdentLen(x + (['.'] + u)) == |x|
    requires 0 < m <= |u| && IdentLen(u) == m
    ensures ParseName(x + (['.'] + u)) == Some((Selector(Ident(x), u[..m]), u[m..]))
  {
    QualifiedSlices(x, '.', u, m);
  }

  /** The parts of `x + [c] + u` at the positions ParseName cuts it. */
  lemma QualifiedSlices<T>(x: seq<T>, c: T, u: seq<T>, m: nat)
    requires m <= |u|
    ensures var s := x + ([c] + u);
            && s[|x|] == c && s[|x| + 1..] == u && s[..|x|] == x
            && s[|x| + 1..|x| + 1 + m] == u[..m] && s[|x| + 1 + m..] == u[m..]
  {
    var s := x + ([c] + u);
    assert s[|x| + 1..] == u;
    assert s[|x| + 1..|x| + 1 + m] == u[..m];
  }

  /** Two renderable type expressions with the same rendering are the same expression. */
  lemma RenderInjective(a: TypeExpr, b: TypeExpr)
    requires Renderable(a) && Renderable(b)
    requires TypeToString(a) == TypeToString(b)
    ensures a == b
  {
    ParseRendered(a, []);
    ParseRendered(b, []);
    assert TypeToString(a) + [] == TypeToString(a);
    assert TypeToString(b) + [] == TypeToString(b);
  }

  /** Outside that set information is dropped: array lengths, channel directions and interface bodies. */
  lemma RenderDropsDetail(elt: TypeExpr, len: string, ms: seq<Field>)
    requires ms != []
    ensures TypeToString(ArrayType(Some(len), elt)) == TypeToString(ArrayType(None, elt))
    ensures TypeToString(ChanType(SendOnly, elt)) == TypeToString(ChanType(Both, elt))
    ensures TypeToString(InterfaceType(ms)) == TypeToString(InterfaceType([]))
    ensures !Renderable(ArrayType(Some(len), elt)) && !Renderable(InterfaceType(ms))
  {
  }
}
