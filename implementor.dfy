/** Implementor: the text-building helpers of the class generator (comma lists, parameter lists,
    throws clauses, type parameters, default return values, Unicode escaping, file names), the check
    that rejects types that cannot be implemented, and the two ways the versions collect the
    abstract methods a generated class must implement.

    Reflection is replaced by data: a type is a ClassInfo or a ClassNode value, a method a Method
    value. Members without a suffix model the later version; members ending in V1 model the
    earlier one where it differs. System.lineSeparator() and File.separatorChar are parameters. */
module Implementor {
  import opened Wrappers
  import opened Seqs
  import opened Orders

  const IMPL_SUFFIX := "Impl"
  const SOURCE_EXTENSION := ".java"
  const CLASS_FILE_EXTENSION := ".class"
  const INDENTATION := "    "

  /** Only characters below 128. */
  predicate Ascii(s: string) {
    forall i :: 0 <= i < |s| ==> s[i] as int < 128
  }

  // ---------------------------------------------------------------------------------------------
  // Joining and replacing

  /** Collectors.joining(sep): the items with sep between neighbours. */
  function Join(items: seq<string>, sep: string): string
    decreases |items|
  {
    if items == [] then "" else if |items| == 1 then items[0] else items[0] + sep + Join(items[1..], sep)
  }

  /** collectCommaList: joining with ", ". */
  function CollectCommaList(items: seq<string>): string {
    Join(items, ", ")
  }

  /** Joining two non-empty lists is joining each and putting one separator between them. */
  lemma {:induction false} JoinAppend(a: seq<string>, b: seq<string>, sep: string)
    requires a != [] && b != []
    ensures Join(a + b, sep) == Join(a, sep) + sep + Join(b, sep)
    decreases |a|
  {
    if |a| == 1 {
      assert (a + b)[1..] == b;
    } else {
      assert (a + b)[1..] == a[1..] + b;
      JoinAppend(a[1..], b, sep);
    }
  }

  /** With a non-empty separator the join is empty only for no items or a single empty item. */
  lemma {:induction false} JoinEmpty(items: seq<string>, sep: string)
    requires sep != ""
    ensures Join(items, sep) == "" <==> items == [] || items == [""]
    decreases |items|
  {
    if |items| > 1 {
      assert |Join(items, sep)| >= |sep|;
    }
  }

  /** The join holds a character only if an item or the separator holds it. */
  lemma {:induction false} JoinChars(items: seq<string>, sep: string, c: char)
    requires forall k :: 0 <= k < |items| ==> c !in items[k]
    requires c !in sep
    ensures c !in Join(items, sep)
    decreases |items|
  {
    if |items| > 1 {
      JoinChars(items[1..], sep, c);
    }
  }

  /** A join of ASCII items with an ASCII separator is ASCII. */
  lemma {:induction false} JoinAscii(items: seq<string>, sep: string)
    requires forall k :: 0 <= k < |items| ==> Ascii(items[k])
    requires Ascii(sep)
    ensures Ascii(Join(items, sep))
    decreases |items|
  {
    if |items| > 1 {
      JoinAscii(items[1..], sep);
      var rest := Join(items[1..], sep);
      assert Join(items, sep) == items[0] + sep + rest;
      forall i | 0 <= i < |items[0] + sep + rest| ensures (items[0] + sep + rest)[i] as int < 128 {
        if i < |items[0]| {
        } else if i < |items[0]| + |sep| {
          assert (items[0] + sep + rest)[i] == sep[i - |items[0]|];
        } else {
          assert (items[0] + sep + rest)[i] == rest[i - |items[0]| - |sep|];
        }
      }
    }
  }

  /** String.replace(from, to): every occurrence of one char replaced by another. */
  function Replace(s: string, from: char, to: char): (r: string)
    ensures |r| == |s|
    ensures from != to ==> from !in r
    ensures from !in s ==> r == s
    ensures forall i :: 0 <= i < |s| ==> r[i] == (if s[i] == from then to else s[i])
  {
    seq(|s|, i requires 0 <= i < |s| => if s[i] == from then to else s[i])
  }

  /** Replacing one ASCII char by another keeps a string ASCII. */
  lemma ReplaceAscii(s: string, from: char, to: char)
    requires Ascii(s) && to as int < 128
    ensures Ascii(Replace(s, from, to))
  {
  }

  // ---------------------------------------------------------------------------------------------
  // collectParameters, transformIfNotEmpty, collectExceptions, collectGenericParameters

  /** The items with every '$' replaced by '.', as collectParameters maps them. */
  function NestedToDots(items: seq<string>): (r: seq<string>)
    ensures |r| == |items|
    ensures forall k :: 0 <= k < |items| ==> r[k] == Replace(items[k], '$', '.')
  {
    seq(|items|, k requires 0 <= k < |items| => Replace(items[k], '$', '.'))
  }

  /** collectParameters (later version): the comma list of the items, '$' turned into '.', in
      parentheses. */
  function CollectParameters(items: seq<string>): string {
    "(" + CollectCommaList(NestedToDots(items)) + ")"
  }

  /** collectParameters (earlier version): the comma list in parentheses, unchanged. */
  function CollectParametersV1(items: seq<string>): string {
    "(" + CollectCommaList(items) + ")"
  }

  /** The later parameter list is parenthesised and free of '$', and it is the earlier one
      whenever no item holds a '$'. */
  lemma CollectParametersSpec(items: seq<string>)
    ensures var r := CollectParameters(items);
      |r| >= 2 && r[0] == '(' && r[|r| - 1] == ')' && '$' !in r
    ensures (forall k :: 0 <= k < |items| ==> '$' !in items[k]) ==> CollectParameters(items) == CollectParametersV1(items)
  {
    JoinChars(NestedToDots(items), ", ", '$');
    if forall k :: 0 <= k < |items| ==> '$' !in items[k] {
      assert NestedToDots(items) == items;
    }
  }

  /** transformIfNotEmpty: the transformer applied to a non-empty string; "" stays "". */
  function TransformIfNotEmpty(s: string, transformer: string -> string): string {
    if s != "" then transformer(s) else ""
  }

  /** collectExceptions: " throws " and the comma list, or "" for an empty list. */
  function CollectExceptions(items: seq<string>): string {
    TransformIfNotEmpty(CollectCommaList(items), s => " throws " + s)
  }

  /** collectGenericParameters: the comma list in angle brackets, or "" for an empty list. */
  function CollectGenericParameters(items: seq<string>): string {
    TransformIfNotEmpty(CollectCommaList(items), s => "<" + s + ">")
  }

  /** Type names are never empty, so a throws clause or a type parameter list is written exactly
      when there is something to list. */
  lemma WrappedListsSpec(items: seq<string>)
    requires forall k :: 0 <= k < |items| ==> items[k] != ""
    ensures items == [] ==> CollectExceptions(items) == "" && CollectGenericParameters(items) == ""
    ensures items != [] ==> CollectExceptions(items) == " throws " + CollectCommaList(items)
    ensures items != [] ==> CollectGenericParameters(items) == "<" + CollectCommaList(items) + ">"
  {
    JoinEmpty(items, ", ");
  }

  // ---------------------------------------------------------------------------------------------
  // Default values and generated bodies

  /** A Java type: the primitives (void counts as one, as void.class.isPrimitive() says) or a
      reference type, by name. */
  datatype JType = Primitive(name: string) | Reference(name: string)

  const BOOLEAN := Primitive("boolean")
  const VOID := Primitive("void")

  /** getDefaultValue: "false" for boolean, "" for void, "0" for the other primitives, "null"
      for every reference type. */
  function DefaultValue(t: JType): (r: string)
    ensures r == "false" <==> t == BOOLEAN
    ensures r == "" <==> t == VOID
    ensures r == "0" <==> t.Primitive? && t != BOOLEAN && t != VOID
    ensures r == "null" <==> t.Reference?
    ensures Ascii(r)
  {
    if t == BOOLEAN then "false" else if t == VOID then "" else if t.Primitive? then "0" else "null"
  }

  /** What follows "return": the default value after a space, unless it is empty. */
  function ReturnValue(returnType: JType): string {
    TransformIfNotEmpty(DefaultValue(returnType), s => " " + s)
  }

  /** writeMethodBody (later version): return, the escaped return value and a semicolon. */
  function MethodBody(returnType: JType, eoln: string): string {
    INDENTATION + INDENTATION + "return" + Escaped(ReturnValue(returnType)) + ";" + eoln
  }

  /** writeMethodBody (earlier version): the same without escaping. */
  function MethodBodyV1(returnType: JType, eoln: string): string {
    INDENTATION + INDENTATION + "return" + ReturnValue(returnType) + ";" + eoln
  }

  /** The return value is empty for void and otherwise a space and the default value, and
      escaping leaves it unchanged. */
  lemma ReturnValueSpec(returnType: JType)
    ensures returnType == VOID ==> ReturnValue(returnType) == ""
    ensures returnType != VOID ==> ReturnValue(returnType) == " " + DefaultValue(returnType)
    ensures Escaped(ReturnValue(returnType)) == ReturnValue(returnType)
  {
    ReturnValueShape(returnType);
    assert Ascii(ReturnValue(returnType));
    EscapedAsciiIdentity(ReturnValue(returnType));
  }

  /** The return value without the escaping. */
  lemma ReturnValueShape(returnType: JType)
    ensures returnType == VOID ==> ReturnValue(returnType) == ""
    ensures returnType != VOID ==> ReturnValue(returnType) == " " + DefaultValue(returnType)
  {
    var v := ReturnValue(returnType);
    if returnType == VOID {
      assert v == "";
    } else {
      assert v == " " + DefaultValue(returnType);
    }
  }

  /** A generated method body is "return;" for void and "return <default>;" otherwise, in both
      versions alike. */
  lemma MethodBodySpec(returnType: JType, eoln: string)
    ensures returnType == VOID ==> MethodBody(returnType, eoln) == INDENTATION + INDENTATION + "return;" + eoln
    ensures returnType != VOID ==> MethodBody(returnType, eoln) == INDENTATION + INDENTATION + "return " + DefaultValue(returnType) + ";" + eoln
    ensures MethodBody(returnType, eoln) == MethodBodyV1(returnType, eoln)
  {
    ReturnValueSpec(returnType);
    MethodBodyV1Spec(returnType, eoln);
  }

  /** The earlier version's body, with the return value written out. */
  lemma MethodBodyV1Spec(returnType: JType, eoln: string)
    ensures returnType == VOID ==> MethodBodyV1(returnType, eoln) == INDENTATION + INDENTATION + "return;" + eoln
    ensures returnType != VOID ==> MethodBodyV1(returnType, eoln) == INDENTATION + INDENTATION + "return " + DefaultValue(returnType) + ";" + eoln
  {
    ReturnValueShape(returnType);
    var p := INDENTATION + INDENTATION;
    if returnType == VOID {
      assert p + "return" + "" == p + "return";
      AppendAssoc(p, "return", ";");
      assert "return" + ";" == "return;";
    } else {
      var d := DefaultValue(returnType);
      AppendAssoc(p + "return", " ", d);
      AppendAssoc(p, "return", " ");
      assert "return" + " " == "return ";
    }
  }

  /** Concatenation is associative: the instances the proof above needs, each on its own. */
  lemma AppendAssoc(a: string, b: string, c: string)
    ensures a + b + c == a + (b + c)
  {
  }

  /** writeConstructorBody (later version): super and the escaped parameter names. */
  function ConstructorBody(parameterNames: seq<string>, eoln: string): string {
    INDENTATION + INDENTATION + "super" + Escaped(CollectParameters(parameterNames)) + ";" + eoln
  }

  /** writeConstructorBody (earlier version): super and the parameter names unchanged. */
  function ConstructorBodyV1(parameterNames: seq<string>, eoln: string): string {
    INDENTATION + INDENTATION + "super" + CollectParametersV1(parameterNames) + ";" + eoln
  }

  /** The two versions write the same constructor body when the names are ASCII without '$'. */
  lemma ConstructorBodySpec(parameterNames: seq<string>, eoln: string)
    requires forall k :: 0 <= k < |parameterNames| ==> Ascii(parameterNames[k]) && '$' !in parameterNames[k]
    ensures ConstructorBody(parameterNames, eoln) == ConstructorBodyV1(parameterNames, eoln)
  {
    CollectParametersSpec(parameterNames);
    JoinAscii(parameterNames, ", ");
    var p := CollectParametersV1(parameterNames);
    var inner := CollectCommaList(parameterNames);
    assert p == "(" + inner + ")";
    assert Ascii(p) by {
      forall i | 0 <= i < |p| ensures p[i] as int < 128 {
        if 0 < i < |p| - 1 {
          assert p[i] == inner[i - 1];
        }
      }
    }
    EscapedAsciiIdentity(p);
  }

  /** What getExecutableTypeAndName needs of an executable. */
  datatype Executable =
    | ConstructorOf(declaringSimpleName: string)
    | MethodNamed(returnTypeName: string, name: string)

  /** getExecutableTypeAndName: the implementation name for a constructor; the return type name
      with '$' turned into '.', a space and the name for a method. */
  function ExecutableTypeAndName(e: Executable): (r: string)
    ensures e.ConstructorOf? ==> r == ImplName(e.declaringSimpleName)
    ensures e.MethodNamed? ==>
      && |r| == |e.returnTypeName| + 1 + |e.name|
      && '$' !in r[..|e.returnTypeName|]
      && r[|e.returnTypeName|] == ' '
      && r[|e.returnTypeName| + 1..] == e.name
    ensures e.MethodNamed? ==> forall i :: 0 <= i < |e.returnTypeName| ==>
      r[i] == (if e.returnTypeName[i] == '$' then '.' else e.returnTypeName[i])
  {
    match e
    case ConstructorOf(simple) => ImplName(simple)
    case MethodNamed(typeName, name) =>
      var t := Replace(typeName, '$', '.');
      assert (t + " " + name)[..|typeName|] == t;
      t + " " + name
  }

  // ---------------------------------------------------------------------------------------------
  // escapeUnicode

  const HEX_DIGITS := "0123456789ABCDEF"

  /** A character outside the 16-bit range is the surrogate pair its two units denote. */
  lemma SurrogatesRoundTrip(c: char)
    requires c as int >= 0x1_0000
    ensures var u := CharUnits(c);
      && |u| == 2
      && 0xD800 <= u[0] < 0xDC00 && 0xDC00 <= u[1] < 0xE000
      && 0x1_0000 + (u[0] - 0xD800) * 0x400 + (u[1] - 0xDC00) == c as int
  {
  }

  /** String.format("%04X", unit): four upper-case hexadecimal digits. */
  function Hex4(n: int): (r: string)
    requires 0 <= n < 0x1_0000
    ensures |r| == 4
  {
    [HEX_DIGITS[n / 16 / 16 / 16], HEX_DIGITS[n / 16 / 16 % 16], HEX_DIGITS[n / 16 % 16], HEX_DIGITS[n % 16]]
  }

  /** The value of a hexadecimal digit. */
  function HexValue(c: char): int {
    if '0' <= c <= '9' then c as int - '0' as int
    else if 'A' <= c <= 'F' then c as int - 'A' as int + 10
    else if 'a' <= c <= 'f' then c as int - 'a' as int + 10
    else -1
  }

  /** Reading four hexadecimal digits. */
  function ParseHex4(h: string): int
    requires |h| == 4
  {
    ((HexValue(h[0]) * 16 + HexValue(h[1])) * 16 + HexValue(h[2])) * 16 + HexValue(h[3])
  }

  lemma HexDigitValue(d: int)
    requires 0 <= d < 16
    ensures HexValue(HEX_DIGITS[d]) == d && HEX_DIGITS[d] as int < 128
  {
  }

  /** The four digits read back as the unit, and they are ASCII. */
  lemma Hex4RoundTrip(n: int)
    requires 0 <= n < 0x1_0000
    ensures ParseHex4(Hex4(n)) == n
    ensures Ascii(Hex4(n))
  {
    HexDigitValue(n / 16 / 16 / 16);
    HexDigitValue(n / 16 / 16 % 16);
    HexDigitValue(n / 16 % 16);
    HexDigitValue(n % 16);
  }

  /** One unit as escapeUnicode writes it: below 128 the char itself, otherwise \u and four
      upper-case hexadecimal digits. */
  function EscapeUnit(u: int): string
    requires 0 <= u < 0x1_0000
  {
    if u >= 128 then "\\u" + Hex4(u) else [u as char]
  }

  /** The units escaped one after another. */
  function EscapeUnits(units: seq<int>): string
    requires forall k :: 0 <= k < |units| ==> 0 <= units[k] < 0x1_0000
    decreases |units|
  {
    if units == [] then "" else EscapeUnits(units[..|units| - 1]) + EscapeUnit(units[|units| - 1])
  }

  /** escapeUnicode, as a function of the string. */
  function Escaped(s: string): string {
    EscapeUnits(Utf16(s))
  }

  /** escapeUnicode: the loop over the char array appending to a StringBuilder. */
  method EscapeUnicode(s: string) returns (r: string)
    ensures r == Escaped(s)
  {
    var units := Utf16(s);
    r := "";
    for i := 0 to |units|
      invariant r == EscapeUnits(units[..i])
    {
      var c := units[i];
      assert units[..i + 1][..i] == units[..i];
      assert EscapeUnits(units[..i + 1]) == r + EscapeUnit(c);
      if c >= 128 {
        r := r + "\\u" + Hex4(c);
      } else {
        r := r + [c as char];
      }
    }
    assert units[..|units|] == units;
  }

  /** Escaping works unit by unit: escaping a concatenation concatenates the escapes. */
  lemma {:induction false} EscapeUnitsAppend(a: seq<int>, b: seq<int>)
    requires forall k :: 0 <= k < |a| ==> 0 <= a[k] < 0x1_0000
    requires forall k :: 0 <= k < |b| ==> 0 <= b[k] < 0x1_0000
    ensures EscapeUnits(a + b) == EscapeUnits(a) + EscapeUnits(b)
    decreases |b|
  {
    if b == [] {
      assert a + b == a;
    } else {
      var init := b[..|b| - 1];
      assert (a + b)[..|a + b| - 1] == a + init;
      assert (a + b)[|a + b| - 1] == b[|b| - 1];
      EscapeUnitsAppend(a, init);
    }
  }

  /** The escaped text is all ASCII. */
  lemma {:induction false} EscapeUnitsAscii(units: seq<int>)
    requires forall k :: 0 <= k < |units| ==> 0 <= units[k] < 0x1_0000
    ensures Ascii(EscapeUnits(units))
    decreases |units|
  {
    if units != [] {
      var init, u := units[..|units| - 1], units[|units| - 1];
      EscapeUnitsAscii(init);
      if u >= 128 {
        Hex4RoundTrip(u);
      }
      var p, e := EscapeUnits(init), EscapeUnit(u);
      forall i | 0 <= i < |p + e| ensures (p + e)[i] as int < 128 {
        if i >= |p| {
          assert (p + e)[i] == e[i - |p|];
        }
      }
    }
  }

  lemma EscapedAscii(s: string)
    ensures Ascii(Escaped(s))
  {
    EscapeUnitsAscii(Utf16(s));
  }

  /** ASCII text is written unchanged. */
  lemma {:induction false} EscapeUnitsIdentity(units: seq<int>)
    requires forall k :: 0 <= k < |units| ==> 0 <= units[k] < 128
    ensures |EscapeUnits(units)| == |units|
    ensures forall k :: 0 <= k < |units| ==> EscapeUnits(units)[k] as int == units[k]
    decreases |units|
  {
    if units != [] {
      EscapeUnitsIdentity(units[..|units| - 1]);
    }
  }

  lemma EscapedAsciiIdentity(s: string)
    requires Ascii(s)
    ensures Escaped(s) == s
  {
    EscapeUnitsIdentity(Utf16(s));
  }

  /** A non-ASCII unit is written as \u followed by four digits that read back as the unit. */
  lemma EscapeUnitRoundTrip(u: int)
    requires 128 <= u < 0x1_0000
    ensures var e := EscapeUnit(u);
      |e| == 6 && e[..2] == "\\u" && ParseHex4(e[2..]) == u
  {
    Hex4RoundTrip(u);
    assert EscapeUnit(u)[2..] == Hex4(u);
  }

  // ---------------------------------------------------------------------------------------------
  // Names and paths

  /** getImplName: the simple name followed by "Impl". */
  function ImplName(simpleName: string): string {
    simpleName + IMPL_SUFFIX
  }

  /** Path.resolve on paths held as text: nothing to add, nothing to add to, or a separator
      between the two. */
  function Resolve(path: string, other: string, separator: char): string {
    if other == "" then path else if path == "" then other else path + [separator] + other
  }

  /** getImplFilePath: the package as nested directories under path, then the implementation
      name with the extension. */
  function ImplFilePath(path: string, packageName: string, simpleName: string, extension: string, separator: char): string {
    Resolve(Resolve(path, Replace(packageName, '.', separator), separator), ImplName(simpleName) + extension, separator)
  }

  /** The file lies under path, in one directory per package name component, and is named after
      the implementation; with no package it lies directly under path. */
  lemma ImplFilePathSpec(path: string, packageName: string, simpleName: string, extension: string, separator: char)
    requires separator != '.'
    ensures path != "" && packageName != "" ==>
      ImplFilePath(path, packageName, simpleName, extension, separator) ==
        path + [separator] + Replace(packageName, '.', separator) + [separator] + simpleName + "Impl" + extension
    ensures path != "" && packageName == "" ==>
      ImplFilePath(path, packageName, simpleName, extension, separator) == path + [separator] + simpleName + "Impl" + extension
    ensures !('.' in Replace(packageName, '.', separator))
  {
  }

  /** The JAR entry implementJar writes: the binary name with '.' turned into '/', then "Impl"
      and ".class". */
  function JarEntryName(binaryName: string): string {
    Replace(binaryName, '.', '/') + IMPL_SUFFIX + CLASS_FILE_EXTENSION
  }

  /** For a class in a package the JAR entry is the relative path the class file is compiled to
      under '/' as the separator. */
  lemma JarEntryMatchesClassFile(packageName: string, simpleName: string)
    requires packageName != "" && '.' !in simpleName
    ensures JarEntryName(packageName + "." + simpleName) == ImplFilePath("", packageName, simpleName, CLASS_FILE_EXTENSION, '/')
  {
    var full := packageName + "." + simpleName;
    var l := Replace(full, '.', '/');
    var r := Replace(packageName, '.', '/') + "/" + simpleName;
    forall i | 0 <= i < |l| ensures l[i] == r[i] {
      if i < |packageName| {
        assert full[i] == packageName[i];
      } else if i == |packageName| {
      } else {
        assert full[i] == simpleName[i - |packageName| - 1];
        assert r[i] == simpleName[i - |packageName| - 1];
      }
    }
    assert l == r;
  }

  // ---------------------------------------------------------------------------------------------
  // The check at the start of implement

  datatype ConstructorInfo = ConstructorInfo(isPrivate: bool, parameterNames: seq<string>)

  /** What implement asks of the token: whether it is a primitive or an array type, whether it
      is final, whether it is java.lang.Enum itself, and its declared constructors. */
  datatype ClassInfo = ClassInfo(
    canonicalName: string,
    isPrimitive: bool,
    isArray: bool,
    isFinal: bool,
    isEnumBase: bool,
    constructors: seq<ConstructorInfo>)

  /** The test of implement (later version); the failure carries the ImplerException message. */
  function CheckImplementable(c: ClassInfo): Result<(), string> {
    if c.isPrimitive || c.isArray || c.isFinal || c.isEnumBase
       || (|c.constructors| != 0 && forall k :: 0 <= k < |c.constructors| ==> c.constructors[k].isPrivate)
    then Failure(c.canonicalName + " cannot be implemented")
    else Success(())
  }

  /** The test of implement (earlier version): no look at the constructors. */
  function CheckImplementableV1(c: ClassInfo): Result<(), string> {
    if c.isPrimitive || c.isArray || c.isFinal || c.isEnumBase
    then Failure("You may not implement " + c.canonicalName)
    else Success(())
  }

  /** writeConstructors: the declared constructors that are not private, in order. */
  function WrittenConstructors(cs: seq<ConstructorInfo>): (r: seq<ConstructorInfo>)
    ensures forall x :: x in r <==> x in cs && !x.isPrivate
    decreases |cs|
  {
    if cs == [] then []
    else (if cs[0].isPrivate then [] else [cs[0]]) + WrittenConstructors(cs[1..])
  }

  /** The later check rejects everything the earlier one does, and in addition exactly the types
      whose declared constructors are all private; a type it accepts gets at least one
      constructor written whenever it declares any, so the generated class can call super. */
  lemma ImplementChecksSpec(c: ClassInfo)
    ensures CheckImplementableV1(c).Failure? ==> CheckImplementable(c).Failure?
    ensures CheckImplementable(c).Failure? && CheckImplementableV1(c).Success? <==>
      && !(c.isPrimitive || c.isArray || c.isFinal || c.isEnumBase)
      && |c.constructors| != 0 && forall k :: 0 <= k < |c.constructors| ==> c.constructors[k].isPrivate
    ensures CheckImplementable(c).Success? && c.constructors != [] ==> WrittenConstructors(c.constructors) != []
  {
    if CheckImplementable(c).Success? && c.constructors != [] {
      var k :| 0 <= k < |c.constructors| && !c.constructors[k].isPrivate;
      assert c.constructors[k] in WrittenConstructors(c.constructors);
    }
  }

  // ---------------------------------------------------------------------------------------------
  // Methods and MethodWrapper

  /** The parts of a reflected method the generator looks at. */
  datatype Method = Method(name: string, returnType: JType, parameterTypes: seq<JType>, isAbstract: bool, declaringClass: string)

  /** A MethodWrapper's identity: name, return type and parameter types. */
  datatype Signature = Signature(name: string, returnType: JType, parameterTypes: seq<JType>)

  function SignatureOf(m: Method): Signature {
    Signature(m.name, m.returnType, m.parameterTypes)
  }

  /** MethodWrapper.equals: equal parameter types, return type and name. */
  predicate WrappersEqual(a: Method, b: Method) {
    a.parameterTypes == b.parameterTypes && a.returnType == b.returnType && a.name == b.name
  }

  /** Two wrappers are equal exactly when their methods have one signature, so a set of wrappers
      is a map from signatures; the declaring class and the modifiers do not matter. */
  lemma WrappersEqualSpec(a: Method, b: Method)
    ensures WrappersEqual(a, b) <==> SignatureOf(a) == SignatureOf(b)
    ensures WrappersEqual(a, b) ==> WrappersEqual(b, a)
    ensures WrappersEqual(a, a)
  {
  }

  /** HashSet.add of a wrapper: a wrapper equal to one already present is not added. */
  function Put(wrappers: map<Signature, Method>, m: Method): map<Signature, Method> {
    if SignatureOf(m) in wrappers then wrappers else wrappers[SignatureOf(m) := m]
  }

  // ---------------------------------------------------------------------------------------------
  // getAbstractMethods (later version)

  /** j is the first position in ms of an abstract method with signature k. */
  predicate FirstAbstract(ms: seq<Method>, j: int, k: Signature)
    requires 0 <= j < |ms|
  {
    && ms[j].isAbstract && SignatureOf(ms[j]) == k
    && forall i :: 0 <= i < j ==> !(ms[i].isAbstract && SignatureOf(ms[i]) == k)
  }

  /** The map holds one wrapper per signature of the abstract methods in ms: the first such method. */
  ghost predicate CollectedFrom(wrappers: map<Signature, Method>, ms: seq<Method>) {
    && (forall k :: k in wrappers <==> exists j :: 0 <= j < |ms| && ms[j].isAbstract && SignatureOf(ms[j]) == k)
    && (forall k :: k in wrappers ==> exists j :: 0 <= j < |ms| && FirstAbstract(ms, j, k) && wrappers[k] == ms[j])
  }

  /** addAbstractMethods: the stream of abstract methods added one by one. */
  function AddAbstractMethods(methods: seq<Method>, wrappers: map<Signature, Method>): map<Signature, Method>
    decreases |methods|
  {
    if methods == [] then wrappers
    else AddAbstractMethods(methods[1..], if methods[0].isAbstract then Put(wrappers, methods[0]) else wrappers)
  }

  /** One more method: the map has the signatures of the abstract methods among them. */
  lemma CollectedOneKeys(wrappers: map<Signature, Method>, ms: seq<Method>, m: Method)
    requires CollectedFrom(wrappers, ms)
    ensures var wrappers', ms' := if m.isAbstract then Put(wrappers, m) else wrappers, ms + [m];
      forall k :: k in wrappers' <==> exists j :: 0 <= j < |ms'| && ms'[j].isAbstract && SignatureOf(ms'[j]) == k
  {
    var wrappers', ms' := if m.isAbstract then Put(wrappers, m) else wrappers, ms + [m];
    forall k ensures k in wrappers' <==> exists j :: 0 <= j < |ms'| && ms'[j].isAbstract && SignatureOf(ms'[j]) == k {
      if k in wrappers {
        var j :| 0 <= j < |ms| && ms[j].isAbstract && SignatureOf(ms[j]) == k;
        assert ms'[j] == ms[j];
      }
      if exists j :: 0 <= j < |ms'| && ms'[j].isAbstract && SignatureOf(ms'[j]) == k {
        var j :| 0 <= j < |ms'| && ms'[j].isAbstract && SignatureOf(ms'[j]) == k;
        if j < |ms| {
          assert ms[j] == ms'[j];
        }
      }
      if k !in wrappers && m.isAbstract && SignatureOf(m) == k {
        assert ms'[|ms|] == m;
      }
    }
  }

  /** One more method: each wrapper is still the first abstract method with its signature. */
  lemma CollectedOneFirst(wrappers: map<Signature, Method>, ms: seq<Method>, m: Method)
    requires CollectedFrom(wrappers, ms)
    ensures var wrappers', ms' := if m.isAbstract then Put(wrappers, m) else wrappers, ms + [m];
      forall k :: k in wrappers' ==> exists j :: 0 <= j < |ms'| && FirstAbstract(ms', j, k) && wrappers'[k] == ms'[j]
  {
    var wrappers', ms' := if m.isAbstract then Put(wrappers, m) else wrappers, ms + [m];
    forall k | k in wrappers' ensures exists j :: 0 <= j < |ms'| && FirstAbstract(ms', j, k) && wrappers'[k] == ms'[j] {
      if k in wrappers {
        var j :| 0 <= j < |ms| && FirstAbstract(ms, j, k) && wrappers[k] == ms[j];
        assert FirstAbstract(ms', j, k);
      } else {
        forall i | 0 <= i < |ms| ensures !(ms'[i].isAbstract && SignatureOf(ms'[i]) == k) {
          assert ms'[i] == ms[i];
        }
        assert FirstAbstract(ms', |ms|, k);
      }
    }
  }

  /** Adding one method keeps the map collected from the methods seen so far. */
  lemma CollectedOne(wrappers: map<Signature, Method>, ms: seq<Method>, m: Method)
    requires CollectedFrom(wrappers, ms)
    ensures CollectedFrom(if m.isAbstract then Put(wrappers, m) else wrappers, ms + [m])
  {
    CollectedOneKeys(wrappers, ms, m);
    CollectedOneFirst(wrappers, ms, m);
  }

  /** Adding the abstract methods of more methods extends what the map was collected from. */
  lemma {:induction false} CollectedMore(wrappers: map<Signature, Method>, ms: seq<Method>, more: seq<Method>)
    requires CollectedFrom(wrappers, ms)
    ensures CollectedFrom(AddAbstractMethods(more, wrappers), ms + more)
    decreases |more|
  {
    if more == [] {
      assert ms + more == ms;
    } else {
      CollectedOne(wrappers, ms, more[0]);
      assert ms + more == (ms + [more[0]]) + more[1..];
      CollectedMore(if more[0].isAbstract then Put(wrappers, more[0]) else wrappers, ms + [more[0]], more[1..]);
    }
  }

  /** getAbstractMethods (later version): the abstract methods of getMethods(), then the
      declared methods of the class and of each superclass up the chain, into one HashSet. The
      set has a wrapper for every signature of an abstract method found, and no other; each is
      the first abstract method with that signature in that order. */
  method GetAbstractMethods(publicMethods: seq<Method>, superclassChain: seq<seq<Method>>) returns (collection: map<Signature, Method>)
    ensures CollectedFrom(collection, publicMethods + Flatten(superclassChain))
  {
    collection := AddAbstractMethods(publicMethods, map[]);
    CollectedStart(publicMethods, superclassChain);
    for i := 0 to |superclassChain|
      invariant CollectedFrom(collection, publicMethods + Flatten(superclassChain[..i]))
    {
      CollectedStep(collection, publicMethods, superclassChain, i);
      collection := AddAbstractMethods(superclassChain[i], collection);
    }
    assert superclassChain[..|superclassChain|] == superclassChain;
  }

  /** The map after getMethods() is collected from it. */
  lemma CollectedStart(publicMethods: seq<Method>, superclassChain: seq<seq<Method>>)
    ensures CollectedFrom(AddAbstractMethods(publicMethods, map[]), publicMethods + Flatten(superclassChain[..0]))
  {
    assert CollectedFrom(map[], []);
    CollectedMore(map[], [], publicMethods);
    assert [] + publicMethods == publicMethods + Flatten(superclassChain[..0]);
  }

  /** One more class of the chain extends what the map was collected from by its methods. */
  lemma CollectedStep(collection: map<Signature, Method>, publicMethods: seq<Method>, superclassChain: seq<seq<Method>>, i: int)
    requires 0 <= i < |superclassChain|
    requires CollectedFrom(collection, publicMethods + Flatten(superclassChain[..i]))
    ensures CollectedFrom(AddAbstractMethods(superclassChain[i], collection), publicMethods + Flatten(superclassChain[..i + 1]))
  {
    var seen := publicMethods + Flatten(superclassChain[..i]);
    CollectedMore(collection, seen, superclassChain[i]);
    FlattenSnoc(superclassChain[..i], superclassChain[i]);
    assert superclassChain[..i + 1] == superclassChain[..i] + [superclassChain[i]];
    assert seen + superclassChain[i] == publicMethods + Flatten(superclassChain[..i + 1]);
  }

  /** What the collected map means for one signature: it is present exactly when some method in
      the searched order is abstract with it, and it maps to an abstract method with it. */
  lemma CollectedFromSpec(wrappers: map<Signature, Method>, ms: seq<Method>, k: Signature)
    requires CollectedFrom(wrappers, ms)
    ensures k in wrappers <==> exists m :: m in ms && m.isAbstract && SignatureOf(m) == k
    ensures k in wrappers ==> wrappers[k] in ms && wrappers[k].isAbstract && SignatureOf(wrappers[k]) == k
  {
    if exists m :: m in ms && m.isAbstract && SignatureOf(m) == k {
      var m :| m in ms && m.isAbstract && SignatureOf(m) == k;
      var j :| 0 <= j < |ms| && ms[j] == m;
    }
    if k in wrappers {
      var j :| 0 <= j < |ms| && FirstAbstract(ms, j, k) && wrappers[k] == ms[j];
    }
  }

  // ---------------------------------------------------------------------------------------------
  // getAbstractMethodsImpl (earlier version)

  /** A type in the hierarchy: its declared methods, its superclass and its interfaces. A type
      reached twice is a separate copy, which is how the recursion visits it. */
  datatype ClassNode = ClassNode(declared: seq<Method>, superclass: Option<ClassNode>, interfaces: seq<ClassNode>)

  /** The two sets getAbstractMethodsImpl updates. */
  datatype Sets = Sets(storage: map<Signature, Method>, implemented: set<Signature>)

  /** The outcome of the loop over the declared methods: the storage so far and implementedHere. */
  datatype Scanned = Scanned(storage: map<Signature, Method>, here: set<Signature>)

  /** The loop over getDeclaredMethods(): an abstract method not in implemented goes to storage;
      the signature of every other method goes to implementedHere. */
  function ScanDeclared(ms: seq<Method>, implemented: set<Signature>, storage: map<Signature, Method>): Scanned
    decreases |ms|
  {
    if ms == [] then Scanned(storage, {})
    else
      var prev := ScanDeclared(ms[..|ms| - 1], implemented, storage);
      var m := ms[|ms| - 1];
      if !m.isAbstract then Scanned(prev.storage, prev.here + {SignatureOf(m)})
      else if SignatureOf(m) in implemented then prev
      else Scanned(Put(prev.storage, m), prev.here)
  }

  /** getAbstractMethodsImpl as written: after the superclass and the interfaces, removeAll takes
      every signature implemented here out of implemented, also those a subclass had put there. */
  function VisitV1(c: ClassNode, st: Sets): Sets
    decreases c, |c.interfaces| + 1
  {
    var sc := ScanDeclared(c.declared, st.implemented, st.storage);
    var st1 := Sets(sc.storage, st.implemented + sc.here);
    var st2 := if c.superclass.Some? then VisitV1(c.superclass.value, st1) else st1;
    var st3 := VisitInterfacesV1(c, 0, st2);
    Sets(st3.storage, st3.implemented - sc.here)
  }

  /** The loop over getInterfaces() from position i on. */
  function VisitInterfacesV1(c: ClassNode, i: nat, st: Sets): Sets
    decreases c, |c.interfaces| - i
  {
    if i >= |c.interfaces| then st else VisitInterfacesV1(c, i + 1, VisitV1(c.interfaces[i], st))
  }

  /** getAbstractMethodsImpl corrected: implemented is given back exactly as it was received, so
      only the signatures this call added are taken out again. */
  function Visit(c: ClassNode, st: Sets): Sets
    decreases c, |c.interfaces| + 1
  {
    var sc := ScanDeclared(c.declared, st.implemented, st.storage);
    var st1 := Sets(sc.storage, st.implemented + sc.here);
    var st2 := if c.superclass.Some? then Visit(c.superclass.value, st1) else st1;
    var st3 := VisitInterfaces(c, 0, st2);
    Sets(st3.storage, st3.implemented - (sc.here - st.implemented))
  }

  function VisitInterfaces(c: ClassNode, i: nat, st: Sets): Sets
    decreases c, |c.interfaces| - i
  {
    if i >= |c.interfaces| then st else VisitInterfaces(c, i + 1, Visit(c.interfaces[i], st))
  }

  /** The signatures of the abstract and of the other methods among ms. */
  function AbstractSignatures(ms: seq<Method>): set<Signature> {
    set m | m in ms && m.isAbstract :: SignatureOf(m)
  }

  function ConcreteSignatures(ms: seq<Method>): set<Signature> {
    set m | m in ms && !m.isAbstract :: SignatureOf(m)
  }

  /** The signatures still to implement below c when those in implemented are implemented
      further down: c's own abstract ones not implemented, and those of its superclass and its
      interfaces once c's own methods count as implemented. */
  function Pending(c: ClassNode, implemented: set<Signature>): set<Signature>
    decreases c, |c.interfaces| + 1
  {
    var below := implemented + ConcreteSignatures(c.declared);
    (AbstractSignatures(c.declared) - implemented)
    + (if c.superclass.Some? then Pending(c.superclass.value, below) else {})
    + PendingInterfaces(c, 0, below)
  }

  function PendingInterfaces(c: ClassNode, i: nat, implemented: set<Signature>): set<Signature>
    decreases c, |c.interfaces| - i
  {
    if i >= |c.interfaces| then {} else Pending(c.interfaces[i], implemented) + PendingInterfaces(c, i + 1, implemented)
  }

  /** Every stored wrapper is an abstract method filed under its own signature. */
  ghost predicate WellFiled(storage: map<Signature, Method>) {
    forall k :: k in storage ==> storage[k].isAbstract && SignatureOf(storage[k]) == k
  }

  /** The outcome of st' after st as the corrected recursion promises it for the signatures in add:
      implemented as before, storage grown by exactly add, old entries untouched. */
  ghost predicate Extends(st: Sets, st': Sets, add: set<Signature>) {
    && st'.implemented == st.implemented
    && st'.storage.Keys == st.storage.Keys + add
    && (forall k :: k in st.storage ==> st'.storage[k] == st.storage[k])
    && WellFiled(st'.storage)
  }

  /** The declared-methods loop collects the signatures of the methods that are not abstract. */
  lemma {:induction false} ScanDeclaredHere(ms: seq<Method>, implemented: set<Signature>, storage: map<Signature, Method>)
    ensures ScanDeclared(ms, implemented, storage).here == ConcreteSignatures(ms)
    decreases |ms|
  {
    if ms != [] {
      var init, m := ms[..|ms| - 1], ms[|ms| - 1];
      ScanDeclaredHere(init, implemented, storage);
      assert ms == init + [m];
      assert ConcreteSignatures(ms) == ConcreteSignatures(init) + (if m.isAbstract then {} else {SignatureOf(m)});
    }
  }

  /** The declared-methods loop stores the abstract signatures that are not implemented. */
  lemma {:induction false} ScanDeclaredKeys(ms: seq<Method>, implemented: set<Signature>, storage: map<Signature, Method>)
    ensures ScanDeclared(ms, implemented, storage).storage.Keys == storage.Keys + (AbstractSignatures(ms) - implemented)
    decreases |ms|
  {
    if ms != [] {
      var init, m := ms[..|ms| - 1], ms[|ms| - 1];
      ScanDeclaredKeys(init, implemented, storage);
      assert ms == init + [m];
      var prev, r := ScanDeclared(init, implemented, storage), ScanDeclared(ms, implemented, storage);
      var sig := SignatureOf(m);
      if !m.isAbstract {
        assert AbstractSignatures(ms) == AbstractSignatures(init);
        assert r.storage == prev.storage;
      } else if sig in implemented {
        assert AbstractSignatures(ms) == AbstractSignatures(init) + {sig};
        assert AbstractSignatures(ms) - implemented == AbstractSignatures(init) - implemented;
        assert r == prev;
      } else {
        assert AbstractSignatures(ms) == AbstractSignatures(init) + {sig};
        assert AbstractSignatures(ms) - implemented == (AbstractSignatures(init) - implemented) + {sig};
        assert r.storage == Put(prev.storage, m);
        assert r.storage.Keys == prev.storage.Keys + {sig};
      }
    }
  }

  /** The declared-methods loop keeps what was stored and files each new method under its own
      signature. */
  lemma {:induction false} ScanDeclaredFiled(ms: seq<Method>, implemented: set<Signature>, storage: map<Signature, Method>)
    requires WellFiled(storage)
    ensures storage.Keys <= ScanDeclared(ms, implemented, storage).storage.Keys
    ensures forall k :: k in storage ==> ScanDeclared(ms, implemented, storage).storage[k] == storage[k]
    ensures WellFiled(ScanDeclared(ms, implemented, storage).storage)
    decreases |ms|
  {
    if ms != [] {
      var init, m := ms[..|ms| - 1], ms[|ms| - 1];
      ScanDeclaredFiled(init, implemented, storage);
      var prev, r := ScanDeclared(init, implemented, storage), ScanDeclared(ms, implemented, storage);
      if !m.isAbstract {
        assert r.storage == prev.storage;
      } else if SignatureOf(m) in implemented {
        assert r == prev;
      } else {
        assert r.storage == Put(prev.storage, m);
      }
    }
  }

  /** The declared-methods loop adds the abstract signatures not implemented and keeps what was
      stored. */
  lemma ScanDeclaredSpec(ms: seq<Method>, implemented: set<Signature>, storage: map<Signature, Method>)
    requires WellFiled(storage)
    ensures ScanDeclared(ms, implemented, storage).here == ConcreteSignatures(ms)
    ensures ScanDeclared(ms, implemented, storage).storage.Keys == storage.Keys + (AbstractSignatures(ms) - implemented)
    ensures forall k :: k in storage ==> ScanDeclared(ms, implemented, storage).storage[k] == storage[k]
    ensures WellFiled(ScanDeclared(ms, implemented, storage).storage)
  {
    ScanDeclaredHere(ms, implemented, storage);
    ScanDeclaredKeys(ms, implemented, storage);
    ScanDeclaredFiled(ms, implemented, storage);
  }

  /** The corrected recursion adds exactly the pending signatures, leaves implemented as it was
      and never replaces a stored wrapper. */
  lemma {:induction false} VisitSpec(c: ClassNode, st: Sets)
    requires WellFiled(st.storage)
    ensures Extends(st, Visit(c, st), Pending(c, st.implemented))
    decreases c, |c.interfaces| + 1
  {
    ScanDeclaredSpec(c.declared, st.implemented, st.storage);
    var sc := ScanDeclared(c.declared, st.implemented, st.storage);
    var below := st.implemented + ConcreteSignatures(c.declared);
    var st1 := Sets(sc.storage, below);
    var st2 := if c.superclass.Some? then Visit(c.superclass.value, st1) else st1;
    var fromSuper := if c.superclass.Some? then Pending(c.superclass.value, below) else {};
    if c.superclass.Some? {
      VisitSpec(c.superclass.value, st1);
    }
    assert Extends(st1, st2, fromSuper);
    VisitInterfacesSpec(c, 0, st2);
  }

  lemma {:induction false} VisitInterfacesSpec(c: ClassNode, i: nat, st: Sets)
    requires WellFiled(st.storage)
    ensures Extends(st, VisitInterfaces(c, i, st), PendingInterfaces(c, i, st.implemented))
    decreases c, |c.interfaces| - i
  {
    if i < |c.interfaces| {
      var st1 := Visit(c.interfaces[i], st);
      VisitSpec(c.interfaces[i], st);
      VisitInterfacesSpec(c, i + 1, st1);
    }
  }

  /** A signature implemented further down is never pending. */
  lemma {:induction false} ImplementedNotPending(c: ClassNode, implemented: set<Signature>, k: Signature)
    requires k in implemented
    ensures k !in Pending(c, implemented)
    decreases c, |c.interfaces| + 1
  {
    if c.superclass.Some? {
      ImplementedNotPending(c.superclass.value, implemented + ConcreteSignatures(c.declared), k);
    }
    ImplementedInterfacesNotPending(c, 0, implemented + ConcreteSignatures(c.declared), k);
  }

  lemma {:induction false} ImplementedInterfacesNotPending(c: ClassNode, i: nat, implemented: set<Signature>, k: Signature)
    requires k in implemented
    ensures k !in PendingInterfaces(c, i, implemented)
    decreases c, |c.interfaces| - i
  {
    if i < |c.interfaces| {
      ImplementedNotPending(c.interfaces[i], implemented, k);
      ImplementedInterfacesNotPending(c, i + 1, implemented, k);
    }
  }

  /** getAbstractMethods (earlier version) over the corrected recursion, from empty sets. A method the
      class itself implements, and does not also declare abstract, is never collected. */
  lemma AbstractMethodsV1Spec(c: ClassNode, k: Signature)
    ensures Visit(c, Sets(map[], {})).storage.Keys == Pending(c, {})
    ensures WellFiled(Visit(c, Sets(map[], {})).storage)
    ensures k in ConcreteSignatures(c.declared) && k !in AbstractSignatures(c.declared) ==>
      k !in Visit(c, Sets(map[], {})).storage
  {
    VisitSpec(c, Sets(map[], {}));
    var below: set<Signature> := {} + ConcreteSignatures(c.declared);
    if k in ConcreteSignatures(c.declared) {
      if c.superclass.Some? {
        ImplementedNotPending(c.superclass.value, below, k);
      }
      ImplementedInterfacesNotPending(c, 0, below, k);
    }
  }

  /** A class implementing f() whose superclass also implements f() and whose interface declares
      f() abstract: as written, the superclass's removeAll forgets the class's own f(), and the
      interface's abstract f() is collected; the corrected recursion does not collect it. */
  lemma RemoveAllForgetsImplementation()
    ensures var f := Method("f", VOID, [], false, "A");
      var base := ClassNode([Method("f", VOID, [], false, "B")], None, []);
      var intf := ClassNode([Method("f", VOID, [], true, "I")], None, []);
      var a := ClassNode([f], Some(base), [intf]);
      && SignatureOf(f) in VisitV1(a, Sets(map[], {})).storage
      && SignatureOf(f) !in Visit(a, Sets(map[], {})).storage
  {
    var f := Method("f", VOID, [], false, "A");
    var g := Method("f", VOID, [], false, "B");
    var h := Method("f", VOID, [], true, "I");
    var k := SignatureOf(f);
    var base := ClassNode([g], None, []);
    var intf := ClassNode([h], None, []);
    var a := ClassNode([f], Some(base), [intf]);
    assert [f][..0] == [] && [g][..0] == [] && [h][..0] == [];
    var empty := Sets(map[], {});
    assert ScanDeclared([f], {}, map[]) == Scanned(map[], {k});
    var st1 := Sets(map[], {k});
    assert ScanDeclared([g], {k}, map[]) == Scanned(map[], {k});
    assert VisitInterfacesV1(base, 0, st1) == st1;
    assert VisitV1(base, st1) == Sets(map[], {});
    assert ScanDeclared([h], {}, map[]) == Scanned(map[k := h], {});
    assert VisitInterfacesV1(intf, 0, Sets(map[k := h], {})) == Sets(map[k := h], {});
    assert VisitV1(intf, Sets(map[], {})) == Sets(map[k := h], {});
    assert VisitInterfacesV1(a, 1, Sets(map[k := h], {})) == Sets(map[k := h], {});
    assert VisitInterfacesV1(a, 0, Sets(map[], {})) == Sets(map[k := h], {});
    assert k in VisitV1(a, empty).storage;
    assert k in ConcreteSignatures([f]) by {
      assert f in [f];
    }
    assert k !in AbstractSignatures([f]);
    AbstractMethodsV1Spec(a, k);
  }

  /** The two HashSets of getAbstractMethods (earlier version), updated in place by the recursion. */
  class MethodCollector {
    var storage: map<Signature, Method>
    var implemented: set<Signature>

    constructor()
      ensures storage == map[] && implemented == {}
    {
      storage := map[];
      implemented := {};
    }

    function State(): Sets
      reads this
    {
      Sets(storage, implemented)
    }

    /** The loop over the declared methods; implementedHere is returned. */
    method ScanMethods(declared: seq<Method>) returns (here: set<Signature>)
      modifies this
      ensures implemented == old(implemented)
      ensures Scanned(storage, here) == ScanDeclared(declared, implemented, old(storage))
    {
      here := {};
      for i := 0 to |declared|
        invariant implemented == old(implemented)
        invariant Scanned(storage, here) == ScanDeclared(declared[..i], implemented, old(storage))
      {
        var m := declared[i];
        if m.isAbstract {
          if SignatureOf(m) !in implemented {
            storage := Put(storage, m);
          }
        } else {
          here := here + {SignatureOf(m)};
        }
        assert declared[..i + 1][..i] == declared[..i];
      }
      assert declared[..|declared|] == declared;
    }

    /** getAbstractMethodsImpl as written. */
    method CollectV1(c: ClassNode)
      modifies this
      ensures State() == VisitV1(c, old(State()))
      decreases c
    {
      var here := ScanMethods(c.declared);
      implemented := implemented + here;
      if c.superclass.Some? {
        CollectV1(c.superclass.value);
      }
      ghost var afterSuper := State();
      for i := 0 to |c.interfaces|
        invariant VisitInterfacesV1(c, i, State()) == VisitInterfacesV1(c, 0, afterSuper)
      {
        CollectV1(c.interfaces[i]);
      }
      implemented := implemented - here;
    }

    /** getAbstractMethodsImpl corrected: implemented is put back as it was received. */
    method Collect(c: ClassNode)
      modifies this
      ensures State() == Visit(c, old(State()))
      decreases c
    {
      var before := implemented;
      var here := ScanMethods(c.declared);
      implemented := implemented + here;
      if c.superclass.Some? {
        Collect(c.superclass.value);
      }
      ghost var afterSuper := State();
      for i := 0 to |c.interfaces|
        invariant VisitInterfaces(c, i, State()) == VisitInterfaces(c, 0, afterSuper)
      {
        Collect(c.interfaces[i]);
      }
      implemented := implemented - (here - before);
    }
  }

  /** getAbstractMethods (earlier version) as written: the recursion with removeAll, from empty
      sets. RemoveAllForgetsImplementation gives a class for which it collects a method the class
      implements. */
  method GetAbstractMethodsV1AsWritten(c: ClassNode) returns (collection: map<Signature, Method>)
    ensures collection == VisitV1(c, Sets(map[], {})).storage
  {
    var collector := new MethodCollector();
    collector.CollectV1(c);
    collection := collector.storage;
  }

  /** getAbstractMethods (earlier version) over the corrected recursion: a wrapper for every
      pending signature, each an abstract method with that signature. */
  method GetAbstractMethodsV1(c: ClassNode) returns (collection: map<Signature, Method>)
    ensures collection.Keys == Pending(c, {})
    ensures forall k :: k in collection ==> collection[k].isAbstract && SignatureOf(collection[k]) == k
  {
    var collector := new MethodCollector();
    collector.Collect(c);
    collection := collector.storage;
    AbstractMethodsV1Spec(c, Signature("", VOID, []));
  }
}
