/**
 * The text-based prototype (pkg/try/try.go). Every interface method of every
 * file is removed from the file's text in turn, line by line; the edited text
 * is written into a scratch copy of the files, an external checker runs on
 * the copy, and the method is reported when the checker succeeds. The file
 * is rewritten with its original text after every check.
 *
 * The checker is a parameter judging the whole scratch copy (file name to
 * text), and so is the Go parser (text to its type declarations, or nothing
 * when the text does not parse). The source files are a map from path to
 * text; a path missing from it is a file that cannot be read.
 */
module Try {
  import opened Common
  import opened GoStrings
  import opened GoAst

  datatype Result<T> = Ok(value: T) | Failure(message: string)

  // ---------------------------------------------------------------------
  // removeMethod: a state machine over the lines of the text

  /** The line that opens the interface's region. */
  function Header(interfaceName: string): string
  {
    "type " + interfaceName + " interface"
  }

  /** Whether the region is open, whether the next line is skipped, and the lines kept so far. */
  datatype LineState = LineState(inInterface: bool, skipNext: bool, result: seq<string>)

  /** The line is inside the region: the region is open, or the line opens it. */
  predicate InRegion(st: LineState, line: string, header: string)
  {
    st.inInterface || Contains(line, header)
  }

  /** The line is kept: it is not skipped, and it is not a matching line inside the region. */
  predicate Kept(st: LineState, line: string, header: string, matches: string -> bool)
  {
    !st.skipNext && !(InRegion(st, line, header) && matches(line))
  }

  /**
   * One line: a skipped line only clears the flag; a matching line inside the
   * region is dropped, and the next line is skipped too when it opens more
   * parentheses than it closes; any other line is kept, and closes the region
   * when it holds `}`.
   */
  function Step(st: LineState, line: string, header: string, matches: string -> bool): LineState
  {
    if st.skipNext then st.(skipNext := false)
    else if InRegion(st, line, header) && matches(line) then
      LineState(true, Count(line, '(') > Count(line, ')'), st.result)
    else
      LineState(InRegion(st, line, header) && !Contains(line, "}"), false, st.result + [line])
  }

  function Scan(lines: seq<string>, header: string, matches: string -> bool): LineState
  {
    if lines == [] then LineState(false, false, [])
    else Step(Scan(lines[..|lines| - 1], header, matches), lines[|lines| - 1], header, matches)
  }

  /** Which lines the scan keeps. */
  function Mask(lines: seq<string>, header: string, matches: string -> bool): (mask: seq<bool>)
    ensures |mask| == |lines|
  {
    if lines == [] then []
    else
      var init := lines[..|lines| - 1];
      Mask(init, header, matches) + [Kept(Scan(init, header, matches), lines[|lines| - 1], header, matches)]
  }

  /** The match removeMethod uses: the line contains `methodName(` anywhere. */
  function SubstringMatch(methodName: string): string -> bool
  {
    line => Contains(line, methodName + "(")
  }

  /** The number of leading spaces and tabs. */
  function Indent(line: string): (n: nat)
    ensures n <= |line|
  {
    if line != [] && (line[0] == ' ' || line[0] == '\t') then 1 + Indent(line[1..]) else 0
  }

  /** After its indentation the line starts with `methodName(`: it declares that method. */
  predicate DeclaresMethodLine(line: string, methodName: string)
  {
    methodName + "(" <= line[Indent(line)..]
  }

  /** The match evidently intended: the line declares the method. */
  function ExactMatch(methodName: string): string -> bool
  {
    line => DeclaresMethodLine(line, methodName)
  }

  /** removeMethod's result: the kept lines of the text, joined again by newlines. */
  function RemoveLines(content: string, interfaceName: string, matches: string -> bool): string
  {
    Join(Scan(Split(content, '\n'), Header(interfaceName), matches).result, "\n")
  }

  /** The loop of removeMethod. */
  method ScanLines(lines: seq<string>, header: string, matches: string -> bool) returns (result: seq<string>)
    ensures result == Scan(lines, header, matches).result
  {
    result := [];
    var inInterface := false;
    var skipNext := false;
    var i := 0;
    while i < |lines|
      invariant 0 <= i <= |lines|
      invariant LineState(inInterface, skipNext, result) == Scan(lines[..i], header, matches)
    {
      assert lines[..i + 1][..i] == lines[..i];
      var line := lines[i];
      i := i + 1;
      if skipNext {
        skipNext := false;
        continue;
      }
      if Contains(line, header) {
        inInterface := true;
      }
      if inInterface && matches(line) {
        skipNext := Count(line, '(') > Count(line, ')');
        continue;
      }
      result := result + [line];
      if inInterface && Contains(line, "}") {
        inInterface := false;
      }
    }
    assert lines[..i] == lines;
  }

  /** removeMethod, as written. */
  method RemoveMethod(content: string, interfaceName: string, methodName: string) returns (r: string)
    ensures r == RemoveLines(content, interfaceName, SubstringMatch(methodName))
  {
    var lines := Split(content, '\n');
    var result := ScanLines(lines, Header(interfaceName), SubstringMatch(methodName));
    r := Join(result, "\n");
  }

  /** removeMethod with the match it evidently intends: only the line declaring the method is dropped. */
  method RemoveMethodExact(content: string, interfaceName: string, methodName: string) returns (r: string)
    ensures r == RemoveLines(content, interfaceName, ExactMatch(methodName))
  {
    var lines := Split(content, '\n');
    var result := ScanLines(lines, Header(interfaceName), ExactMatch(methodName));
    r := Join(result, "\n");
  }

  // ---------------------------------------------------------------------
  // Lemmas about removeMethod

  /** The scan keeps exactly the lines its mask marks, so the output is the input with lines deleted. */
  lemma {:induction false} ScanSelects(lines: seq<string>, header: string, matches: string -> bool)
    ensures Scan(lines, header, matches).result == Select(lines, Mask(lines, header, matches))
    ensures IsSubsequence(Scan(lines, header, matches).result, lines)
    ensures |Scan(lines, header, matches).result| <= |lines|
  {
    if lines != [] {
      var init := lines[..|lines| - 1];
      var last := lines[|lines| - 1];
      ScanSelects(init, header, matches);
      var st := Scan(init, header, matches);
      var b := Kept(st, last, header, matches);
      assert Scan(lines, header, matches).result == st.result + (if b then [last] else []);
      assert Mask(lines, header, matches) == Mask(init, header, matches) + [b];
      SelectSnoc(init, Mask(init, header, matches), last, b);
      assert init + [last] == lines;
    }
    SelectIsSubsequence(lines, Mask(lines, header, matches));
    SubsequenceNotLonger(Scan(lines, header, matches).result, lines);
  }

  /** The mask entry of a line is decided by the state the scan is in when it reaches the line. */
  lemma {:induction false} MaskAt(lines: seq<string>, header: string, matches: string -> bool, k: nat)
    requires k < |lines|
    ensures Mask(lines, header, matches)[k] == Kept(Scan(lines[..k], header, matches), lines[k], header, matches)
  {
    var n := |lines| - 1;
    if k < n {
      var init := lines[..n];
      MaskAt(init, header, matches, k);
      assert init[..k] == lines[..k];
    }
  }

  /** The scan drops line k by matching it: it is not skipped, lies in the region and matches. */
  predicate MatchedAt(lines: seq<string>, header: string, matches: string -> bool, k: nat)
    requires k < |lines|
  {
    var st := Scan(lines[..k], header, matches);
    !st.skipNext && InRegion(st, lines[k], header) && matches(lines[k])
  }

  /**
   * A line is dropped exactly when it matches inside the region, or it comes
   * right after a matched line that opens more parentheses than it closes.
   */
  lemma DroppedLines(lines: seq<string>, header: string, matches: string -> bool, k: nat)
    requires k < |lines|
    ensures !Mask(lines, header, matches)[k] <==>
              (InRegion(Scan(lines[..k], header, matches), lines[k], header) && matches(lines[k]))
              || (k > 0 && MatchedAt(lines, header, matches, k - 1) && Count(lines[k - 1], '(') > Count(lines[k - 1], ')'))
  {
    MaskAt(lines, header, matches, k);
    if k > 0 {
      assert lines[..k][..k - 1] == lines[..k - 1];
    }
  }

  /**
   * The region: a header line that is not skipped opens it; a kept line
   * holding `}` closes it; a line dropped by a match leaves it open, even
   * when that line holds `}`; a skipped line leaves it as it was.
   */
  lemma RegionBounds(lines: seq<string>, header: string, matches: string -> bool, k: nat)
    requires k < |lines|
    ensures var before := Scan(lines[..k], header, matches);
            var after := Scan(lines[..k + 1], header, matches);
            && (!before.skipNext && Contains(lines[k], header) && !Contains(lines[k], "}") ==> after.inInterface)
            && (Mask(lines, header, matches)[k] && Contains(lines[k], "}") ==> !after.inInterface)
            && (Mask(lines, header, matches)[k] && !Contains(lines[k], "}") ==> after.inInterface == InRegion(before, lines[k], header))
            && (!before.skipNext && !Mask(lines, header, matches)[k] ==> after.inInterface)
            && (before.skipNext ==> after.inInterface == before.inInterface)
  {
    MaskAt(lines, header, matches, k);
    assert lines[..k + 1][..k] == lines[..k];
  }

  /** Without a header line the scan never enters a region and keeps every line. */
  lemma {:induction false} ScanWithoutHeader(lines: seq<string>, header: string, matches: string -> bool)
    requires forall k :: 0 <= k < |lines| ==> !Contains(lines[k], header)
    ensures Scan(lines, header, matches) == LineState(false, false, lines)
  {
    if lines != [] {
      ScanWithoutHeader(lines[..|lines| - 1], header, matches);
      assert lines[..|lines| - 1] + [lines[|lines| - 1]] == lines;
    }
  }

  /** A text without the interface's header line comes back unchanged. */
  lemma NoHeaderUnchanged(content: string, interfaceName: string, matches: string -> bool)
    requires forall k :: 0 <= k < |Split(content, '\n')| ==> !Contains(Split(content, '\n')[k], Header(interfaceName))
    ensures RemoveLines(content, interfaceName, matches) == content
  {
    ScanWithoutHeader(Split(content, '\n'), Header(interfaceName), matches);
    JoinSplit(content, '\n');
  }

  /** A line declaring one method never declares another, when method names hold no parenthesis. */
  lemma DeclaresOneMethod(line: string, name: string, other: string)
    requires '(' !in name && '(' !in other && name != other
    requires DeclaresMethodLine(line, name)
    ensures !DeclaresMethodLine(line, other)
  {
    var rest := line[Indent(line)..];
    var pattern := other + "(";
    assert name + "(" <= rest;
    if |name| < |other| {
      assert rest[|name|] == '(';
      assert pattern[|name|] == other[|name|] != '(';
    } else if |other| < |name| {
      assert pattern[|other|] == '(';
      assert |other| < |rest| && rest[|other|] == name[|other|] != '(';
    } else {
      var k :| 0 <= k < |name| && name[k] != other[k];
      assert pattern[k] == other[k] != rest[k];
    }
  }

  /**
   * With the exact match, a line that declares another method is kept unless
   * it is skipped as the continuation of a dropped line, and a line in the
   * region that declares the method is dropped.
   */
  lemma ExactMatchKeepsOtherMethods(lines: seq<string>, header: string, methodName: string, k: nat, other: string)
    requires k < |lines|
    requires '(' !in methodName && '(' !in other && methodName != other
    ensures DeclaresMethodLine(lines[k], other) && !Scan(lines[..k], header, ExactMatch(methodName)).skipNext ==>
              Mask(lines, header, ExactMatch(methodName))[k]
    ensures DeclaresMethodLine(lines[k], methodName) && InRegion(Scan(lines[..k], header, ExactMatch(methodName)), lines[k], header) ==>
              !Mask(lines, header, ExactMatch(methodName))[k]
  {
    MaskAt(lines, header, ExactMatch(methodName), k);
    if DeclaresMethodLine(lines[k], other) {
      DeclaresOneMethod(lines[k], other, methodName);
    }
  }

  /**
   * The substring match also hits a line that declares a longer method whose
   * name ends in the method's name: `\tGetName() string` for Name.
   */
  lemma SubstringMatchHitsLongerName(prefix: string, methodName: string, post: string)
    requires prefix != [] && prefix[0] != ' ' && prefix[0] != '\t'
    requires '(' !in prefix && '(' !in methodName
    ensures var line := "\t" + prefix + methodName + "(" + post;
            && SubstringMatch(methodName)(line)
            && DeclaresMethodLine(line, prefix + methodName)
            && !ExactMatch(methodName)(line)
  {
    var line := "\t" + prefix + methodName + "(" + post;
    var rest := prefix + methodName + "(" + post;
    assert line == "\t" + rest && line[1..] == rest;
    assert Indent(rest) == 0;
    assert Indent(line) == 1;
    assert line[1 + |prefix|..1 + |prefix| + |methodName + "("|] == methodName + "(";
    ContainsAt(line, methodName + "(", 1 + |prefix|);
    assert (prefix + methodName) + "(" <= rest;
    DeclaresOneMethod(line, prefix + methodName, methodName);
  }

  /**
   * As written, such a line inside the region is dropped when the shorter
   * method is removed, although it declares another method.
   */
  lemma SubstringMatchDropsOtherMethod(lines: seq<string>, header: string, k: nat, prefix: string, methodName: string, post: string)
    requires k < |lines| && lines[k] == "\t" + prefix + methodName + "(" + post
    requires prefix != [] && prefix[0] != ' ' && prefix[0] != '\t'
    requires '(' !in prefix && '(' !in methodName
    requires InRegion(Scan(lines[..k], header, SubstringMatch(methodName)), lines[k], header)
    ensures DeclaresMethodLine(lines[k], prefix + methodName)
    ensures !Mask(lines, header, SubstringMatch(methodName))[k]
  {
    SubstringMatchHitsLongerName(prefix, methodName, post);
    DroppedLines(lines, header, SubstringMatch(methodName), k);
  }

  /** The instance: removing Name hits GetName's line; the exact match does not. */
  lemma GetNameHitByName()
    ensures SubstringMatch("Name")("\tGetName() string")
    ensures DeclaresMethodLine("\tGetName() string", "GetName")
    ensures !ExactMatch("Name")("\tGetName() string")
  {
    SubstringMatchHitsLongerName("Get", "Name", ") string");
    GetNameSpelling();
  }

  /** The line and the method name of the instance, spelt out of their parts. */
  lemma GetNameSpelling()
    ensures "\t" + "Get" + "Name" + "(" + ") string" == "\tGetName() string"
    ensures "Get" + "Name" == "GetName"
  {
    assert "\t" + "Get" + "Name" + "(" + ") string" == "\tGetName() string";
  }

  /**
   * A matched line is dropped before the `}` test, so the region stays open
   * after it even when it holds `}`: an interface declared on one line with
   * the method in it leaves the region open for the rest of the text.
   */
  lemma MatchedLineKeepsRegionOpen(lines: seq<string>, header: string, matches: string -> bool, k: nat)
    requires k < |lines| && MatchedAt(lines, header, matches, k)
    ensures Scan(lines[..k + 1], header, matches).inInterface
  {
    assert lines[..k + 1][..k] == lines[..k];
  }

  /**
   * As written: after a line that opens the region, matches and holds `}`,
   * the region is still open, so a later matching line is dropped although
   * it lies outside any interface.
   */
  lemma OneLineInterfaceDropsLaterCall(decl: string, call: string, header: string, matches: string -> bool)
    requires Contains(decl, header) && matches(decl) && Contains(decl, "}")
    requires matches(call)
    ensures Scan([decl], header, matches).inInterface
    ensures Scan([decl, call], header, matches).result == []
  {
    assert [decl][..0] == [] && [decl, call][..1] == [decl];
  }

  /**
   * One line of the scan as evidently intended: the region closes at a line
   * holding `}` whether the line is kept or dropped by a match.
   */
  function StepClosing(st: LineState, line: string, header: string, matches: string -> bool): LineState
  {
    if st.skipNext then st.(skipNext := false)
    else if InRegion(st, line, header) && matches(line) then
      LineState(!Contains(line, "}"), Count(line, '(') > Count(line, ')'), st.result)
    else
      LineState(InRegion(st, line, header) && !Contains(line, "}"), false, st.result + [line])
  }

  /** The scan of the lines with the corrected step. */
  function ScanClosing(lines: seq<string>, header: string, matches: string -> bool): LineState
  {
    if lines == [] then LineState(false, false, [])
    else StepClosing(ScanClosing(lines[..|lines| - 1], header, matches), lines[|lines| - 1], header, matches)
  }

  /** With the corrected step, a line holding `}` that is not skipped always closes the region. */
  lemma BraceClosesRegion(lines: seq<string>, header: string, matches: string -> bool, k: nat)
    requires k < |lines|
    requires !ScanClosing(lines[..k], header, matches).skipNext && Contains(lines[k], "}")
    ensures !ScanClosing(lines[..k + 1], header, matches).inInterface
  {
    assert lines[..k + 1][..k] == lines[..k];
  }

  /** The two scans agree on every text where no line that holds `}` matches. */
  lemma {:induction false} ClosingAgreesWithoutBraceMatch(lines: seq<string>, header: string, matches: string -> bool)
    requires forall k :: 0 <= k < |lines| ==> !(matches(lines[k]) && Contains(lines[k], "}"))
    ensures ScanClosing(lines, header, matches) == Scan(lines, header, matches)
  {
    if lines != [] {
      var init := lines[..|lines| - 1];
      forall k | 0 <= k < |init|
        ensures !(matches(init[k]) && Contains(init[k], "}"))
      {
        assert init[k] == lines[k];
      }
      ClosingAgreesWithoutBraceMatch(init, header, matches);
    }
  }

  /**
   * Corrected: after the same one-line declaration the region is closed, and
   * a later line that does not open the region again is kept.
   */
  lemma OneLineInterfaceKeepsLaterCall(decl: string, call: string, header: string, matches: string -> bool)
    requires Contains(decl, header) && matches(decl) && Contains(decl, "}")
    requires Count(decl, '(') <= Count(decl, ')')
    requires !Contains(call, header)
    ensures !ScanClosing([decl], header, matches).inInterface
    ensures ScanClosing([decl, call], header, matches).result == [call]
  {
    assert [decl][..0] == [] && [decl, call][..1] == [decl];
  }

  /** A line with one pair of parentheses and no other parenthesis is balanced. */
  lemma BalancedPair(p: string, q: string)
    requires '(' !in p && ')' !in p && '(' !in q && ')' !in q
    ensures Count(p + "()" + q, '(') == 1 && Count(p + "()" + q, ')') == 1
  {
    CountAppend(p + "()", q, '(');
    CountAppend(p, "()", '(');
    CountAppend(p + "()", q, ')');
    CountAppend(p, "()", ')');
    CountAbsent(p, '(');
    CountAbsent(p, ')');
    CountAbsent(q, '(');
    CountAbsent(q, ')');
  }

  /** The instance's declaration line opens the region, matches M and holds `}`. */
  lemma OneLineDeclSpelling(decl: string)
    requires decl == "type I interface { M() }"
    ensures Contains(decl, Header("I")) && SubstringMatch("M")(decl) && Contains(decl, "}")
  {
    assert Header("I") <= decl;
    assert decl[19..21] == "M" + "(";
    ContainsAt(decl, "M" + "(", 19);
    assert decl[23..24] == "}";
    ContainsAt(decl, "}", 23);
  }

  /** The instance's declaration line closes every parenthesis it opens. */
  lemma OneLineDeclBalanced(decl: string)
    requires decl == "type I interface { M() }"
    ensures Count(decl, '(') <= Count(decl, ')')
  {
    assert "type I interface { M" + "()" + " }" == decl;
    BalancedPair("type I interface { M", " }");
  }

  /** The facts about the instance's call line that the scans depend on. */
  lemma OneLineCallSpelling(call: string)
    requires call == "x.M()"
    ensures SubstringMatch("M")(call) && !Contains(call, Header("I"))
  {
    assert call[2..4] == "M" + "(";
    ContainsAt(call, "M" + "(", 2);
    if Contains(call, Header("I")) {
      ContainsChar(call, Header("I"), 't');
      assert false;
    }
  }

  /**
   * The instance: removing M from `type I interface { M() }` followed by
   * `x.M()` drops both lines as written; the corrected scan keeps the call.
   */
  lemma OneLineInterfaceExample(decl: string, call: string)
    requires decl == "type I interface { M() }" && call == "x.M()"
    ensures Scan([decl, call], Header("I"), SubstringMatch("M")).result == []
    ensures ScanClosing([decl, call], Header("I"), SubstringMatch("M")).result == [call]
  {
    OneLineDeclSpelling(decl);
    OneLineDeclBalanced(decl);
    OneLineCallSpelling(call);
    OneLineInterfaceDropsLaterCall(decl, call, Header("I"), SubstringMatch("M"));
    OneLineInterfaceKeepsLaterCall(decl, call, Header("I"), SubstringMatch("M"));
  }

  // ---------------------------------------------------------------------
  // findInterfaces and findMethods

  /** The names of all interface type specs, in walk order. */
  function InterfaceNames(decls: seq<TypeSpec>): seq<string>
  {
    if decls == [] then []
    else
      var d := decls[|decls| - 1];
      InterfaceNames(decls[..|decls| - 1]) + (if d.typ.InterfaceType? then [d.name] else [])
  }

  /** The first name of each named field. */
  function FirstNames(fields: seq<Field>): seq<string>
  {
    if fields == [] then []
    else
      var f := fields[|fields| - 1];
      FirstNames(fields[..|fields| - 1]) + (if IsEmbedded(f) then [] else [f.names[0]])
  }

  /** The methods of every interface type spec with the name, in walk order. */
  function MethodNames(decls: seq<TypeSpec>, interfaceName: string): seq<string>
  {
    if decls == [] then []
    else
      var d := decls[|decls| - 1];
      MethodNames(decls[..|decls| - 1], interfaceName)
      + (if d.name == interfaceName && d.typ.InterfaceType? then FirstNames(d.typ.methods) else [])
  }

  /** findInterfaces: nothing when the text does not parse. */
  function ParsedInterfaces(content: string, parse: string -> Option<seq<TypeSpec>>): seq<string>
  {
    match parse(content)
    case None => []
    case Some(decls) => InterfaceNames(decls)
  }

  /** findMethods: nothing when the text does not parse. */
  function ParsedMethods(content: string, interfaceName: string, parse: string -> Option<seq<TypeSpec>>): seq<string>
  {
    match parse(content)
    case None => []
    case Some(decls) => MethodNames(decls, interfaceName)
  }

  method FindInterfaces(content: string, parse: string -> Option<seq<TypeSpec>>) returns (interfaces: seq<string>)
    ensures interfaces == ParsedInterfaces(content, parse)
  {
    var parsed := parse(content);
    if parsed.None? {
      return [];
    }
    var decls := parsed.value;
    interfaces := [];
    var k := 0;
    while k < |decls|
      invariant 0 <= k <= |decls|
      invariant interfaces == InterfaceNames(decls[..k])
    {
      assert decls[..k + 1][..k] == decls[..k];
      if decls[k].typ.InterfaceType? {
        interfaces := interfaces + [decls[k].name];
      }
      k := k + 1;
    }
    assert decls[..k] == decls;
  }

  method FindMethods(content: string, interfaceName: string, parse: string -> Option<seq<TypeSpec>>) returns (methods: seq<string>)
    ensures methods == ParsedMethods(content, interfaceName, parse)
  {
    var parsed := parse(content);
    if parsed.None? {
      return [];
    }
    var decls := parsed.value;
    methods := [];
    var k := 0;
    while k < |decls|
      invariant 0 <= k <= |decls|
      invariant methods == MethodNames(decls[..k], interfaceName)
    {
      assert decls[..k + 1][..k] == decls[..k];
      var d := decls[k];
      if d.name == interfaceName && d.typ.InterfaceType? {
        var names := FieldNames(d.typ.methods);
        methods := methods + names;
      }
      k := k + 1;
    }
    assert decls[..k] == decls;
  }

  /** The inner loop of findMethods: the first name of each named field. */
  method FieldNames(fields: seq<Field>) returns (names: seq<string>)
    ensures names == FirstNames(fields)
  {
    names := [];
    var j := 0;
    while j < |fields|
      invariant 0 <= j <= |fields|
      invariant names == FirstNames(fields[..j])
    {
      assert fields[..j + 1][..j] == fields[..j];
      if |fields[j].names| > 0 {
        names := names + [fields[j].names[0]];
      }
      j := j + 1;
    }
    assert fields[..j] == fields;
  }

  lemma {:induction false} InterfaceNamesMembers(decls: seq<TypeSpec>)
    ensures forall n :: n in InterfaceNames(decls) <==> exists k :: 0 <= k < |decls| && decls[k].typ.InterfaceType? && decls[k].name == n
  {
    if decls != [] {
      var init := decls[..|decls| - 1];
      InterfaceNamesMembers(init);
      forall n ensures n in InterfaceNames(decls) <==> exists k :: 0 <= k < |decls| && decls[k].typ.InterfaceType? && decls[k].name == n {
        if exists k :: 0 <= k < |decls| && decls[k].typ.InterfaceType? && decls[k].name == n {
          var k :| 0 <= k < |decls| && decls[k].typ.InterfaceType? && decls[k].name == n;
          if k < |init| {
            assert init[k] == decls[k];
          }
        }
        if n in InterfaceNames(init) {
          var k :| 0 <= k < |init| && init[k].typ.InterfaceType? && init[k].name == n;
          assert decls[k] == init[k];
        }
      }
    }
  }

  lemma {:induction false} FirstNamesMembers(fields: seq<Field>)
    ensures forall m :: m in FirstNames(fields) <==> exists j :: 0 <= j < |fields| && !IsEmbedded(fields[j]) && fields[j].names[0] == m
  {
    if fields != [] {
      var init := fields[..|fields| - 1];
      FirstNamesMembers(init);
      forall m ensures m in FirstNames(fields) <==> exists j :: 0 <= j < |fields| && !IsEmbedded(fields[j]) && fields[j].names[0] == m {
        if exists j :: 0 <= j < |fields| && !IsEmbedded(fields[j]) && fields[j].names[0] == m {
          var j :| 0 <= j < |fields| && !IsEmbedded(fields[j]) && fields[j].names[0] == m;
          if j < |init| {
            assert init[j] == fields[j];
          }
        }
        if m in FirstNames(init) {
          var j :| 0 <= j < |init| && !IsEmbedded(init[j]) && init[j].names[0] == m;
          assert fields[j] == init[j];
        }
      }
    }
  }

  /** findMethods yields exactly the first names of the named fields of interfaces with the name. */
  lemma MethodNamesMembers(decls: seq<TypeSpec>, interfaceName: string)
    ensures forall m :: m in MethodNames(decls, interfaceName) <==>
              exists k, j :: 0 <= k < |decls| && decls[k].name == interfaceName && decls[k].typ.InterfaceType?
                             && 0 <= j < |decls[k].typ.methods| && !IsEmbedded(decls[k].typ.methods[j])
                             && decls[k].typ.methods[j].names[0] == m
  {
    forall m | m in MethodNames(decls, interfaceName)
      ensures exists k, j :: 0 <= k < |decls| && decls[k].name == interfaceName && decls[k].typ.InterfaceType?
                             && 0 <= j < |decls[k].typ.methods| && !IsEmbedded(decls[k].typ.methods[j])
                             && decls[k].typ.methods[j].names[0] == m
    {
      var k, j := MethodNameIndex(decls, interfaceName, m);
    }
    forall k, j | 0 <= k < |decls| && decls[k].name == interfaceName && decls[k].typ.InterfaceType?
                  && 0 <= j < |decls[k].typ.methods| && !IsEmbedded(decls[k].typ.methods[j])
      ensures decls[k].typ.methods[j].names[0] in MethodNames(decls, interfaceName)
    {
      MethodNameFound(decls, interfaceName, k, j);
    }
  }

  /** Every method name found is the first name of a named field of an interface with the name. */
  lemma {:induction false} MethodNameIndex(decls: seq<TypeSpec>, interfaceName: string, m: string) returns (k: nat, j: nat)
    requires m in MethodNames(decls, interfaceName)
    ensures k < |decls| && decls[k].name == interfaceName && decls[k].typ.InterfaceType?
            && j < |decls[k].typ.methods| && !IsEmbedded(decls[k].typ.methods[j])
            && decls[k].typ.methods[j].names[0] == m
  {
    var n := |decls| - 1;
    var init := decls[..n];
    var d := decls[n];
    assert MethodNames(decls, interfaceName)
           == MethodNames(init, interfaceName) + (if d.name == interfaceName && d.typ.InterfaceType? then FirstNames(d.typ.methods) else []);
    if m in MethodNames(init, interfaceName) {
      k, j := MethodNameIndex(init, interfaceName, m);
      assert decls[k] == init[k];
    } else {
      k := n;
      FirstNamesMembers(d.typ.methods);
      j :| 0 <= j < |d.typ.methods| && !IsEmbedded(d.typ.methods[j]) && d.typ.methods[j].names[0] == m;
    }
  }

  /** The first name of every named field of an interface with the name is found. */
  lemma {:induction false} MethodNameFound(decls: seq<TypeSpec>, interfaceName: string, k: nat, j: nat)
    requires k < |decls| && decls[k].name == interfaceName && decls[k].typ.InterfaceType?
    requires j < |decls[k].typ.methods| && !IsEmbedded(decls[k].typ.methods[j])
    ensures decls[k].typ.methods[j].names[0] in MethodNames(decls, interfaceName)
  {
    var n := |decls| - 1;
    var init := decls[..n];
    var d := decls[n];
    assert MethodNames(decls, interfaceName)
           == MethodNames(init, interfaceName) + (if d.name == interfaceName && d.typ.InterfaceType? then FirstNames(d.typ.methods) else []);
    if k < n {
      assert init[k] == decls[k];
      MethodNameFound(init, interfaceName, k, j);
    } else {
      FirstNameFound(d.typ.methods, j);
    }
  }

  lemma {:induction false} FirstNameFound(fields: seq<Field>, j: nat)
    requires j < |fields| && !IsEmbedded(fields[j])
    ensures fields[j].names[0] in FirstNames(fields)
  {
    var n := |fields| - 1;
    if j < n {
      assert fields[..n][j] == fields[j];
      FirstNameFound(fields[..n], j);
    }
  }

  // ---------------------------------------------------------------------
  // CheckCode

  function TrimTrailingSlashes(s: string): string
  {
    if s != [] && s[|s| - 1] == '/' then TrimTrailingSlashes(s[..|s| - 1]) else s
  }

  /** filepath.Base: the last element of the path after trailing separators are removed. */
  function Base(path: string): string
  {
    if path == [] then "."
    else
      var t := TrimTrailingSlashes(path);
      if t == [] then "/"
      else
        var parts := Split(t, '/');
        parts[|parts| - 1]
  }

  /** The last element of `dir/name` is `name`, and a last element holds no separator unless it is the root. */
  lemma BaseOfJoinedPath(dir: string, name: string)
    requires name != [] && '/' !in name
    ensures Base(dir + "/" + name) == name
    ensures Base(name) == name
  {
    var s := dir + "/" + name;
    assert s[|s| - 1] == name[|name| - 1];
    assert s == dir + ['/'] + name;
    SplitAtSeparator(dir, '/', name);
    SplitWithoutSeparator(name, '/');
  }

  lemma BaseHasNoSeparator(path: string)
    ensures Base(path) == "/" || '/' !in Base(path)
  {
  }

  /** The scratch copy: each source file under its last path element; a later file overwrites an earlier one of the same name. */
  function Copies(goFiles: seq<string>, disk: map<string, string>): (work: map<string, string>)
    requires forall k :: 0 <= k < |goFiles| ==> goFiles[k] in disk
    ensures forall k :: 0 <= k < |goFiles| ==> Base(goFiles[k]) in work
  {
    if goFiles == [] then map[]
    else
      var f := goFiles[|goFiles| - 1];
      Copies(goFiles[..|goFiles| - 1], disk)[Base(f) := disk[f]]
  }

  function TmpNames(goFiles: seq<string>): (names: seq<string>)
    ensures |names| == |goFiles|
  {
    seq(|goFiles|, k requires 0 <= k < |goFiles| => Base(goFiles[k]))
  }

  /** A report line `Interface.Method`. */
  function Candidate(interfaceName: string, methodName: string): string
  {
    interfaceName + "." + methodName
  }

  /** The checks of one interface's methods: each on the scratch copy with only that method removed from the file. */
  function MethodChecks(work: map<string, string>, file: string, interfaceName: string, methods: seq<string>,
                        passes: map<string, string> -> bool): seq<string>
    requires file in work
  {
    if methods == [] then []
    else
      var m := methods[|methods| - 1];
      MethodChecks(work, file, interfaceName, methods[..|methods| - 1], passes)
      + (if passes(work[file := RemoveLines(work[file], interfaceName, SubstringMatch(m))]) then [Candidate(interfaceName, m)] else [])
  }

  function InterfaceChecks(work: map<string, string>, file: string, interfaces: seq<string>,
                           parse: string -> Option<seq<TypeSpec>>, passes: map<string, string> -> bool): seq<string>
    requires file in work
  {
    if interfaces == [] then []
    else
      var i := interfaces[|interfaces| - 1];
      InterfaceChecks(work, file, interfaces[..|interfaces| - 1], parse, passes)
      + MethodChecks(work, file, i, ParsedMethods(work[file], i, parse), passes)
  }

  function FileChecks(work: map<string, string>, files: seq<string>, parse: string -> Option<seq<TypeSpec>>,
                      passes: map<string, string> -> bool): seq<string>
    requires forall k :: 0 <= k < |files| ==> files[k] in work
  {
    if files == [] then []
    else
      var f := files[|files| - 1];
      FileChecks(work, files[..|files| - 1], parse, passes)
      + InterfaceChecks(work, f, ParsedInterfaces(work[f], parse), parse, passes)
  }

  /** One candidate: write the edited text, run the checker, write the original text back. */
  method CheckCandidate(work: map<string, string>, file: string, interfaceName: string, methodName: string,
                        passes: map<string, string> -> bool)
    returns (unused: bool, restored: map<string, string>)
    requires file in work
    ensures unused == passes(work[file := RemoveLines(work[file], interfaceName, SubstringMatch(methodName))])
    ensures restored == work
  {
    var content := work[file];
    var newContent := RemoveMethod(content, interfaceName, methodName);
    restored := work[file := newContent];
    unused := passes(restored);
    restored := restored[file := content];
    assert restored == work;
  }

  /** The interfaces loop over one scratch file. */
  method CheckFile(work: map<string, string>, file: string, parse: string -> Option<seq<TypeSpec>>,
                   passes: map<string, string> -> bool)
    returns (found: seq<string>)
    requires file in work
    ensures found == InterfaceChecks(work, file, ParsedInterfaces(work[file], parse), parse, passes)
  {
    var content := work[file];
    var interfaces := FindInterfaces(content, parse);
    found := [];
    var i := 0;
    while i < |interfaces|
      invariant 0 <= i <= |interfaces|
      invariant found == InterfaceChecks(work, file, interfaces[..i], parse, passes)
    {
      InterfaceChecksStep(work, file, interfaces, i, parse, passes);
      var methods := FindMethods(content, interfaces[i], parse);
      var more := CheckMethods(work, file, interfaces[i], methods, passes);
      found := found + more;
      i := i + 1;
    }
    assert interfaces[..i] == interfaces;
  }

  /** The methods loop of one interface: every check starts from the text the scratch file had before it. */
  method CheckMethods(work: map<string, string>, file: string, interfaceName: string, methods: seq<string>,
                      passes: map<string, string> -> bool)
    returns (found: seq<string>)
    requires file in work
    ensures found == MethodChecks(work, file, interfaceName, methods, passes)
  {
    var scratch := work;
    found := [];
    var j := 0;
    while j < |methods|
      invariant 0 <= j <= |methods|
      invariant scratch == work
      invariant found == MethodChecks(work, file, interfaceName, methods[..j], passes)
    {
      assert methods[..j + 1][..j] == methods[..j];
      var unused;
      unused, scratch := CheckCandidate(scratch, file, interfaceName, methods[j], passes);
      if unused {
        found := found + [Candidate(interfaceName, methods[j])];
      }
      j := j + 1;
    }
    assert methods[..j] == methods;
  }

  lemma InterfaceChecksStep(work: map<string, string>, file: string, interfaces: seq<string>, i: nat,
                            parse: string -> Option<seq<TypeSpec>>, passes: map<string, string> -> bool)
    requires file in work && i < |interfaces|
    ensures InterfaceChecks(work, file, interfaces[..i + 1], parse, passes)
            == InterfaceChecks(work, file, interfaces[..i], parse, passes)
               + MethodChecks(work, file, interfaces[i], ParsedMethods(work[file], interfaces[i], parse), passes)
  {
    assert interfaces[..i + 1][..i] == interfaces[..i];
  }

  lemma CopyStep(goFiles: seq<string>, disk: map<string, string>, i: nat)
    requires i < |goFiles| && CopiedAll(goFiles[..i], disk) && goFiles[i] in disk
    ensures CopiedAll(goFiles[..i + 1], disk)
    ensures Copies(goFiles[..i + 1], disk) == Copies(goFiles[..i], disk)[Base(goFiles[i]) := disk[goFiles[i]]]
    ensures TmpNames(goFiles[..i + 1]) == TmpNames(goFiles[..i]) + [Base(goFiles[i])]
  {
    assert goFiles[..i + 1][..i] == goFiles[..i];
  }

  /** The copy loop of CheckCode: nothing when a source file cannot be read. */
  method CopyFiles(goFiles: seq<string>, disk: map<string, string>) returns (r: Option<(map<string, string>, seq<string>)>)
    ensures r.None? <==> !CopiedAll(goFiles, disk)
    ensures r.Some? ==> CopiedAll(goFiles, disk) && r.value == (Copies(goFiles, disk), TmpNames(goFiles))
  {
    var work: map<string, string> := map[];
    var tmpFiles: seq<string> := [];
    var i := 0;
    while i < |goFiles|
      invariant 0 <= i <= |goFiles|
      invariant CopiedAll(goFiles[..i], disk)
      invariant work == Copies(goFiles[..i], disk)
      invariant tmpFiles == TmpNames(goFiles[..i])
    {
      if goFiles[i] !in disk {
        return None;
      }
      CopyStep(goFiles, disk, i);
      work := work[Base(goFiles[i]) := disk[goFiles[i]]];
      tmpFiles := tmpFiles + [Base(goFiles[i])];
      i := i + 1;
    }
    assert goFiles[..i] == goFiles;
    return Some((work, tmpFiles));
  }

  /**
   * CheckCode: fails when a source file cannot be copied; otherwise reports
   * every interface method whose removal alone, from the original text of
   * its scratch file, leaves the checker passing.
   */
  method CheckCode(goFiles: seq<string>, disk: map<string, string>, parse: string -> Option<seq<TypeSpec>>,
                   passes: map<string, string> -> bool)
    returns (r: Result<seq<string>>)
    ensures r.Failure? <==> !CopiedAll(goFiles, disk)
    ensures r.Ok? ==> CopiedAll(goFiles, disk) && r.value == FileChecks(Copies(goFiles, disk), TmpNames(goFiles), parse, passes)
  {
    var copied := CopyFiles(goFiles, disk);
    if copied.None? {
      return Failure("failed to copy file");
    }
    var (work, tmpFiles) := copied.value;
    var unusedMethods := [];
    var j := 0;
    while j < |tmpFiles|
      invariant 0 <= j <= |tmpFiles|
      invariant unusedMethods == FileChecks(work, tmpFiles[..j], parse, passes)
    {
      assert tmpFiles[..j + 1][..j] == tmpFiles[..j];
      var found := CheckFile(work, tmpFiles[j], parse, passes);
      unusedMethods := unusedMethods + found;
      j := j + 1;
    }
    assert tmpFiles[..j] == tmpFiles;
    return Ok(unusedMethods);
  }

  predicate CopiedAll(goFiles: seq<string>, disk: map<string, string>)
  {
    forall k :: 0 <= k < |goFiles| ==> goFiles[k] in disk
  }

  // ---------------------------------------------------------------------
  // Lemmas about CheckCode

  lemma {:induction false} MethodChecksMembers(work: map<string, string>, file: string, interfaceName: string, methods: seq<string>,
                                               passes: map<string, string> -> bool)
    requires file in work
    ensures forall s :: s in MethodChecks(work, file, interfaceName, methods, passes) <==>
              exists m :: m in methods && s == Candidate(interfaceName, m)
                          && passes(work[file := RemoveLines(work[file], interfaceName, SubstringMatch(m))])
  {
    if methods != [] {
      MethodChecksMembers(work, file, interfaceName, methods[..|methods| - 1], passes);
      assert methods == methods[..|methods| - 1] + [methods[|methods| - 1]];
    }
  }

  lemma {:induction false} InterfaceChecksMembers(work: map<string, string>, file: string, interfaces: seq<string>,
                                                  parse: string -> Option<seq<TypeSpec>>, passes: map<string, string> -> bool)
    requires file in work
    ensures forall s :: s in InterfaceChecks(work, file, interfaces, parse, passes) <==>
              exists i, m :: i in interfaces && m in ParsedMethods(work[file], i, parse) && s == Candidate(i, m)
                             && passes(work[file := RemoveLines(work[file], i, SubstringMatch(m))])
  {
    if interfaces != [] {
      var init := interfaces[..|interfaces| - 1];
      var last := interfaces[|interfaces| - 1];
      InterfaceChecksMembers(work, file, init, parse, passes);
      MethodChecksMembers(work, file, last, ParsedMethods(work[file], last, parse), passes);
      assert interfaces == init + [last];
    }
  }

  /**
   * What CheckCode reports: `I.M` for a scratch file, an interface I the file
   * declares and a method M of I, exactly when the checker passes on the
   * scratch copy with M removed from that file's original text and every
   * other file untouched.
   */
  lemma {:induction false} CheckCodeReports(work: map<string, string>, files: seq<string>, parse: string -> Option<seq<TypeSpec>>,
                                            passes: map<string, string> -> bool)
    requires forall k :: 0 <= k < |files| ==> files[k] in work
    ensures forall s :: s in FileChecks(work, files, parse, passes) <==>
              exists f, i, m :: f in files && f in work && i in ParsedInterfaces(work[f], parse) && m in ParsedMethods(work[f], i, parse)
                                && s == Candidate(i, m) && passes(work[f := RemoveLines(work[f], i, SubstringMatch(m))])
  {
    if files != [] {
      var init := files[..|files| - 1];
      var last := files[|files| - 1];
      CheckCodeReports(work, init, parse, passes);
      InterfaceChecksMembers(work, last, ParsedInterfaces(work[last], parse), parse, passes);
      assert files == init + [last];
    }
  }
}
