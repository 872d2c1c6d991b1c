/**
 * FilterExpressionVisitor: evaluates an already-parsed `$filter` tree
 * against one entity (section 5.1.1 of OData Version 4.0 Part 2: URL
 * Conventions). Olingo walks the tree bottom-up and hands each visit method
 * the already evaluated operands; Eval does the same walk. Every operator
 * checks the runtime classes of its operands and rejects what it does not
 * support with BAD_REQUEST, NOT_IMPLEMENTED or INTERNAL_SERVER_ERROR.
 *
 * JVM exceptions outside that typed model (division by zero, a number
 * literal `toInt` rejects, a date no format parses, a null operand, a
 * property the entity lacks) are excluded by the precondition Defined.
 */
module Filter {
  import opened Outcomes
  import opened JvmInt
  import Text

  /** A java.util.Calendar or Date: compareTo orders by `millis`; `text` is its toString. */
  datatype Instant = Instant(millis: int, text: string)

  /** Integral java.lang.Number classes other than Integer. */
  datatype IntegralClass = Long | Short | Byte

  /**
   * The runtime values the visitor passes around (`Any?` in Kotlin). A
   * VOther that is a java.lang.Number (BigDecimal, Double, Float, ...)
   * carries its `toLong()` in `asLong`; any other class has None there.
   */
  datatype Value =
    | VBool(b: bool)                     // java.lang.Boolean
    | VInt(i: int)                       // java.lang.Integer
    | VNumber(cls: IntegralClass, n: int)
    | VStr(s: string)                    // java.lang.String
    | VCalendar(at: Instant)             // java.util.GregorianCalendar
    | VDate(at: Instant)                 // java.util.Date
    | VOther(name: string, comparable: bool, text: string, asLong: Option<int>) // any other class
    | VNull

  /** Kotlin's string template `"$v"` of a value (toString, and "null" for null). */
  function ValueText(v: Value): string
  {
    match v
    case VBool(b) => if b then "true" else "false"
    case VInt(i) => Text.ShowInt(i)
    case VNumber(_, n) => Text.ShowInt(n)
    case VStr(s) => s
    case VCalendar(at) => at.text
    case VDate(at) => at.text
    case VOther(_, _, text, _) => text
    case VNull => "null"
  }

  /** `v is Number`: Integer, the integral classes, and a VOther that carries a `toLong()`. */
  predicate IsJavaNumber(v: Value)
  {
    v.VInt? || v.VNumber? || (v.VOther? && v.asLong.Some?)
  }

  /** `Number.toLong()`: exact for the integral classes, truncated for the others. */
  function ToLong(v: Value): int
    requires IsJavaNumber(v)
  {
    if v.VInt? then v.i else if v.VNumber? then v.n else v.asLong.value
  }

  /** The property values of one entity, by property name. */
  type Entity = map<string, Value>

  /** The primitive types Olingo attaches to literals (Untyped: the `null` literal). */
  datatype EdmKind =
    | EdmString | EdmDate | EdmDateTimeOffset | EdmTimeOfDay
    | EdmInt16 | EdmInt32 | EdmInt64 | EdmByte | EdmSByte
    | EdmBoolean | EdmDecimal | EdmDouble | EdmSingle
    | EdmGuid | EdmBinary | EdmDuration | Untyped

  datatype UnaryOp = Minus | Not

  datatype BinaryOp =
    | Has | In | Mul | Div | Mod | Add | Sub
    | Gt | Ge | Lt | Le | Eq | Ne | And | Or

  datatype MethodKind = ContainsMethod | OtherMethod(methodName: string)

  /** One segment of a member's resource path. */
  datatype ResourcePart = PrimitiveProperty(property: string) | OtherResource(kind: string)

  /** An enumeration type: its underlying type and its members' values by name. */
  datatype EnumType = EnumType(underlying: EdmKind, members: map<string, Option<string>>)

  /** The parsed filter tree. */
  datatype Expr =
    | Member(path: seq<ResourcePart>)
    | Literal(kind: EdmKind, text: string)
    | Unary(uop: UnaryOp, operand: Expr)
    | Binary(bop: BinaryOp, left: Expr, right: Expr)
    | BinaryList(lop: BinaryOp, head: Expr, items: seq<Expr>)
    | Method(callee: MethodKind, params: seq<Expr>)
    | Enum(enumType: EnumType, names: seq<string>)
    | TypeLiteral(typeName: string)
    | Alias(aliasName: string)
    | LambdaExpression(lambdaFunction: string, variable: string, body: Expr)
    | LambdaReference(variableName: string)

  /**
   * SimpleDateFormat(format).parse(text) followed by Calendar.setTime:
   * None where parse throws.
   */
  type DateParser = (string, string) -> Option<Instant>

  const DateFormats: seq<string> := ["yyyy-MM-dd"]
  const DateTimeOffsetFormats: seq<string> := ["yyyy-MM-dd'T'HH:mm:ssXXX", "yyyy-MM-dd'T'HH:mmXXX"]
  const TimeOfDayFormats: seq<string> := ["HH:mm"]

  // ---- parseDate ----

  /** The first format, in order, that parses `text`, and what it parsed. */
  function FirstParse(parse: DateParser, formats: seq<string>, text: string): Option<Instant>
  {
    if formats == [] then None
    else if parse(formats[0], text).Some? then parse(formats[0], text)
    else FirstParse(parse, formats[1..], text)
  }

  /** FirstParse is the result of the first format that succeeds; None when all fail. */
  lemma {:induction false} FirstParseIsFirstSuccess(parse: DateParser, formats: seq<string>, text: string)
    ensures FirstParse(parse, formats, text).None? <==>
      forall k :: 0 <= k < |formats| ==> parse(formats[k], text).None?
    ensures FirstParse(parse, formats, text).Some? ==>
      exists k :: 0 <= k < |formats| && FirstParse(parse, formats, text) == parse(formats[k], text) &&
        forall j :: 0 <= j < k ==> parse(formats[j], text).None?
  {
    if formats != [] && parse(formats[0], text).None? {
      var rest := formats[1..];
      FirstParseIsFirstSuccess(parse, rest, text);
      assert forall k :: 1 <= k < |formats| ==> formats[k] == rest[k - 1];
      if FirstParse(parse, rest, text).Some? {
        var k :| 0 <= k < |rest| && FirstParse(parse, rest, text) == parse(rest[k], text) &&
          forall j :: 0 <= j < k ==> parse(rest[j], text).None?;
        assert forall j :: 0 <= j < k + 1 ==> parse(formats[j], text).None?;
        assert FirstParse(parse, formats, text) == parse(formats[k + 1], text);
      }
    } else if formats != [] {
      assert FirstParse(parse, formats, text) == parse(formats[0], text);
    }
  }

  /**
   * parseDate(literal, tryFormats): tries the formats in order and returns
   * the first successful parse; None stands for the IllegalArgumentException
   * thrown when every format fails.
   */
  method ParseDate(parse: DateParser, text: string, formats: seq<string>) returns (r: Option<Instant>)
    ensures r == FirstParse(parse, formats, text)
  {
    var k := 0;
    while k < |formats|
      invariant 0 <= k <= |formats|
      invariant FirstParse(parse, formats, text) == FirstParse(parse, formats[k..], text)
    {
      var attempt := parse(formats[k], text);
      if attempt.Some? {
        return attempt;
      }
      assert formats[k..][1..] == formats[k + 1..];
      k := k + 1;
    }
    return None;
  }

  // ---- literals ----

  /** A string literal without its enclosing quotes; text of 2 characters or fewer gives "". */
  function StringLiteral(text: string): string
  {
    if |text| > 2 then text[1..|text| - 1] else ""
  }

  /** Unquoting gives back exactly what was quoted (quote characters inside are kept). */
  lemma StringLiteralUnquotes(s: string)
    ensures StringLiteral("'" + s + "'") == s
  {
    var t := "'" + s + "'";
    if |s| > 0 {
      assert t[1..|t| - 1] == s;
    }
  }

  predicate IsIntKind(kind: EdmKind)
  {
    kind == EdmInt16 || kind == EdmInt32 || kind == EdmInt64
  }

  /** The formats parseDate tries for each date kind. */
  function DateFormatsOf(kind: EdmKind): seq<string>
  {
    match kind
    case EdmDate => DateFormats
    case EdmDateTimeOffset => DateTimeOffsetFormats
    case _ => TimeOfDayFormats
  }

  predicate IsDateKind(kind: EdmKind)
  {
    kind == EdmDate || kind == EdmDateTimeOffset || kind == EdmTimeOfDay
  }

  /** visitLiteral throws nothing outside the typed model: numbers parse, dates parse. */
  predicate LiteralDefined(kind: EdmKind, text: string, parse: DateParser)
  {
    (IsIntKind(kind) ==> ParseInt(text).Some?) &&
    (IsDateKind(kind) ==> FirstParse(parse, DateFormatsOf(kind), text).Some?)
  }

  /** A parsed date literal: dateTimeOffset becomes a Date, date and timeOfDay stay Calendars. */
  function DateValue(kind: EdmKind, at: Instant): Value
  {
    if kind == EdmDateTimeOffset then VDate(at) else VCalendar(at)
  }

  /**
   * visitLiteral: strings, the three integral kinds and the three date
   * kinds are supported, each giving a value the comparisons can order;
   * every other kind is NOT_IMPLEMENTED.
   */
  function EvalLiteral(kind: EdmKind, text: string, parse: DateParser): (r: Result<Value>)
    requires LiteralDefined(kind, text, parse)
    ensures r.Ok? <==> kind == EdmString || IsIntKind(kind) || IsDateKind(kind)
    ensures r.Err? ==> r == Fail(NotImplemented)
    ensures r.Ok? ==> IsOrderedKind(r.value) && (r.value.VInt? ==> IsInt(r.value.i))
  {
    if kind == EdmString then Ok(VStr(StringLiteral(text)))
    else if IsDateKind(kind) then
      // for dateTimeOffset, `.time` turns the parsed Calendar into a Date
      Ok(DateValue(kind, FirstParse(parse, DateFormatsOf(kind), text).value))
    else if IsIntKind(kind) then Ok(VInt(ParseInt(text).value))
    else Fail(NotImplemented)
  }

  // ---- member references ----

  predicate IsPrimitivePath(path: seq<ResourcePart>)
  {
    |path| == 1 && path[0].PrimitiveProperty?
  }

  /**
   * A property the member reads is there and not null: visitMember returns
   * a non-null Any, so a null property value is a NullPointerException.
   */
  predicate MemberDefined(path: seq<ResourcePart>, entity: Entity)
  {
    IsPrimitivePath(path) ==> path[0].property in entity && entity[path[0].property] != VNull
  }

  /** visitMember: one primitive-property segment reads that property of the entity. */
  function EvalMember(path: seq<ResourcePart>, entity: Entity): (r: Result<Value>)
    requires MemberDefined(path, entity)
    ensures r.Ok? <==> IsPrimitivePath(path)
    ensures r.Err? ==> r == Fail(NotImplemented)
    ensures r.Ok? ==> r.value in entity.Values && r.value != VNull
  {
    if IsPrimitivePath(path) then Ok(entity[path[0].property]) else Fail(NotImplemented)
  }

  /** The statuses the visitor raises: BAD_REQUEST, NOT_IMPLEMENTED and INTERNAL_SERVER_ERROR. */
  predicate IsVisitorError(e: Error)
  {
    e == AppError(BadRequest) || e == AppError(NotImplemented) || e == AppError(InternalServerError)
  }

  // ---- unary operators ----

  /** visitUnaryOperator: NOT on a Boolean and MINUS on an Int keep the operand's class; anything else is BAD_REQUEST. */
  function EvalUnary(op: UnaryOp, v: Value): (r: Result<Value>)
    ensures r.Ok? <==> (op == Not && v.VBool?) || (op == Minus && v.VInt?)
    ensures r.Err? ==> r == Fail(BadRequest)
    ensures r.Ok? ==> ClassOf(r.value) == ClassOf(v)
  {
    if op == Not && v.VBool? then Ok(VBool(!v.b))
    else if op == Minus && v.VInt? then Ok(VInt(IntNeg(v.i)))
    else Fail(BadRequest)
  }

  // ---- binary operators ----

  predicate IsArithmetic(op: BinaryOp)
  {
    op == Add || op == Mod || op == Mul || op == Div || op == Sub
  }

  predicate IsComparison(op: BinaryOp)
  {
    op == Eq || op == Ne || op == Ge || op == Gt || op == Le || op == Lt
  }

  predicate IsLogical(op: BinaryOp)
  {
    op == And || op == Or
  }

  /** evaluateBooleanOperation: a Boolean from two Booleans, BAD_REQUEST otherwise. */
  function EvalLogical(op: BinaryOp, left: Value, right: Value): (r: Result<Value>)
    ensures r.Ok? <==> left.VBool? && right.VBool?
    ensures r.Err? ==> r == Fail(BadRequest)
    ensures r.Ok? ==> r.value.VBool?
  {
    if left.VBool? && right.VBool? then
      Ok(VBool(if op == And then left.b && right.b else left.b || right.b))
    else Fail(BadRequest)
  }

  /** evaluateArithmeticOperation: an Int from two Ints, BAD_REQUEST otherwise. */
  function EvalArithmetic(op: BinaryOp, left: Value, right: Value): (r: Result<Value>)
    requires IsArithmetic(op)
    requires (op == Div || op == Mod) && left.VInt? && right.VInt? ==> right.i != 0
    ensures r.Ok? <==> left.VInt? && right.VInt?
    ensures r.Err? ==> r == Fail(BadRequest)
    ensures r.Ok? ==> r.value.VInt?
  {
    if left.VInt? && right.VInt? then
      var a, b := left.i, right.i;
      Ok(VInt(
        if op == Add then IntAdd(a, b)
        else if op == Sub then IntSub(a, b)
        else if op == Mul then IntMul(a, b)
        else if op == Div then IntDiv(a, b)
        else IntRem(a, b)))
    else Fail(BadRequest)
  }

  /** The Java classes the comparison code tells apart. */
  datatype JavaClass =
    | IntegerClass | NumberClass(integral: IntegralClass) | StringClass | BooleanClass
    | CalendarClass | DateClass | OtherClass(className: string) | NullClass

  function ClassOf(v: Value): JavaClass
  {
    match v
    case VBool(_) => BooleanClass
    case VInt(_) => IntegerClass
    case VNumber(c, _) => NumberClass(c)
    case VStr(_) => StringClass
    case VCalendar(_) => CalendarClass
    case VDate(_) => DateClass
    case VOther(name, _, _, _) => OtherClass(name)
    case VNull => NullClass
  }

  /** `v is Comparable<*>`. */
  predicate IsJavaComparable(v: Value)
  {
    match v
    case VOther(_, comparable, _, _) => comparable
    case VNull => false
    case _ => true
  }

  /** The classes evaluateComparisonOperation knows how to compare. */
  predicate IsOrderedKind(v: Value)
  {
    v.VInt? || v.VStr? || v.VBool? || v.VCalendar? || v.VDate?
  }

  /**
   * isComparable: both Comparable and either one of the known pairs
   * (Int, String, Boolean, GregorianCalendar, Date) or of the same class.
   */
  predicate IsComparable(left: Value, right: Value)
  {
    IsJavaComparable(left) && IsJavaComparable(right) && ClassOf(left) == ClassOf(right)
  }

  /**
   * isComparable is symmetric and never holds for null; two values of the
   * same known class (or of one Comparable class) are always comparable.
   */
  lemma ComparableSymmetric(left: Value, right: Value)
    ensures IsComparable(left, right) <==> IsComparable(right, left)
    ensures IsComparable(left, right) ==> left != VNull && right != VNull
    ensures IsOrderedKind(left) && ClassOf(left) == ClassOf(right) ==> IsComparable(left, right)
  {
  }

  /** Kotlin's `compareTo` on Int, on Long, and Calendar/Date on their milliseconds. */
  function CompareInts(a: int, b: int): int
  {
    if a < b then -1 else if a == b then 0 else 1
  }

  /** java.lang.Boolean.compareTo: false before true. */
  function CompareBools(a: bool, b: bool): int
  {
    if a == b then 0 else if a then 1 else -1
  }

  /**
   * java.lang.String.compareTo: the difference of the first differing
   * characters, else of the lengths (over Unicode scalar values; Java
   * compares UTF-16 code units).
   */
  function CompareStrings(a: string, b: string): int
  {
    if a == [] || b == [] then |a| - |b|
    else if a[0] != b[0] then a[0] as int - b[0] as int
    else CompareStrings(a[1..], b[1..])
  }

  /** String.compareTo is zero exactly on equal strings and flips sign when swapped. */
  lemma {:induction false} CompareStringsOrder(a: string, b: string)
    ensures CompareStrings(a, b) == 0 <==> a == b
    ensures CompareStrings(b, a) == -CompareStrings(a, b)
  {
    if a != [] && b != [] && a[0] == b[0] {
      CompareStringsOrder(a[1..], b[1..]);
      if a[1..] == b[1..] {
        assert a == [a[0]] + a[1..] && b == [b[0]] + b[1..];
      }
    } else if a != [] && b != [] {
      assert a != b;
    } else if |a| == |b| {
      assert a == [] && b == [];
    }
  }

  /** The three-way result of `left.compareTo(right)` for the kinds that have one. */
  function CompareValues(left: Value, right: Value): int
    requires IsOrderedKind(left) && ClassOf(left) == ClassOf(right)
  {
    match left
    case VInt(a) => CompareInts(a, right.i)
    case VStr(a) => CompareStrings(a, right.s)
    case VBool(a) => CompareBools(a, right.b)
    case VCalendar(a) => CompareInts(a.millis, right.at.millis)
    case VDate(a) => CompareInts(a.millis, right.at.millis)
  }

  /** Reads the requested relation off a three-way comparison result. */
  function Relation(op: BinaryOp, c: int): bool
  {
    if op == Eq then c == 0
    else if op == Ne then c != 0
    else if op == Ge then c >= 0
    else if op == Gt then c > 0
    else if op == Le then c <= 0
    else c < 0
  }

  /**
   * evaluateComparisonOperation: BAD_REQUEST exactly for operands that are
   * not comparable, INTERNAL_SERVER_ERROR for a comparable class it has no
   * case for, and a Boolean otherwise.
   */
  function EvalComparison(op: BinaryOp, left: Value, right: Value): (r: Result<Value>)
    ensures r == Fail(BadRequest) <==> !IsComparable(left, right)
    ensures r.Err? ==> r == Fail(BadRequest) || r == Fail(InternalServerError)
    ensures r.Ok? ==> r.value.VBool?
  {
    if !IsComparable(left, right) then Fail(BadRequest)
    else if !IsOrderedKind(left) then Fail(InternalServerError)
    else Ok(VBool(Relation(op, CompareValues(left, right))))
  }

  /** visitBinaryOperator throws nothing outside the typed model. */
  predicate OperandsDefined(op: BinaryOp, left: Value, right: Value)
  {
    left != VNull && right != VNull &&
    ((op == Div || op == Mod) && left.VInt? && right.VInt? ==> right.i != 0)
  }

  /**
   * visitBinaryOperator: dispatch on the operator's category; only an
   * operator outside the three categories is NOT_IMPLEMENTED, arithmetic
   * yields an Int and the other categories a Boolean.
   */
  function EvalBinary(op: BinaryOp, left: Value, right: Value): (r: Result<Value>)
    requires OperandsDefined(op, left, right)
    ensures r == Fail(NotImplemented) <==> !IsArithmetic(op) && !IsComparison(op) && !IsLogical(op)
    ensures r.Err? ==> IsVisitorError(r.error)
    ensures r.Ok? ==> if IsArithmetic(op) then r.value.VInt? else r.value.VBool?
  {
    if IsArithmetic(op) then EvalArithmetic(op, left, right)
    else if IsComparison(op) then EvalComparison(op, left, right)
    else if IsLogical(op) then EvalLogical(op, left, right)
    else Fail(NotImplemented)
  }

  // ---- method calls ----

  /** visitMethodCall: only contains(String, String) gives a value, a Boolean; other methods are NOT_IMPLEMENTED. */
  function EvalMethod(m: MethodKind, args: seq<Value>): (r: Result<Value>)
    requires m == ContainsMethod ==> |args| >= 2
    ensures r.Ok? <==> m == ContainsMethod && args[0].VStr? && args[1].VStr?
    ensures r == Fail(NotImplemented) <==> m != ContainsMethod
    ensures r.Err? ==> IsVisitorError(r.error)
    ensures r.Ok? ==> r.value.VBool?
  {
    if m == ContainsMethod then
      if args[0].VStr? && args[1].VStr? then Ok(VBool(Text.Contains(args[0].s, args[1].s)))
      else Fail(BadRequest)
    else Fail(NotImplemented)
  }

  // ---- enumerations ----

  /** visitEnum throws nothing outside the typed model: an integral member value parses. */
  predicate EnumDefined(t: EnumType, names: seq<string>)
  {
    (names != [] && names[0] in t.members && t.members[names[0]].Some? && IsIntKind(t.underlying)) ==>
      ParseInt(t.members[names[0]].value).Some?
  }

  /**
   * visitEnum: the first listed member's value, typed by the enum's
   * underlying type: null without a valued member, NOT_IMPLEMENTED for an
   * underlying type other than the integral ones and String.
   */
  function EvalEnum(t: EnumType, names: seq<string>): (r: Result<Value>)
    requires EnumDefined(t, names)
    ensures r == Ok(VNull) <==> names == [] || names[0] !in t.members || t.members[names[0]].None?
    ensures r.Err? <==> r == Fail(NotImplemented)
    ensures r.Err? ==> !IsIntKind(t.underlying) && t.underlying != EdmString
    ensures r.Ok? && r.value.VInt? ==> IsInt(r.value.i)
  {
    if names == [] || names[0] !in t.members || t.members[names[0]].None? then Ok(VNull)
    else
      var text := t.members[names[0]].value;
      if IsIntKind(t.underlying) then Ok(VInt(ParseInt(text).value))
      else if t.underlying == EdmString then Ok(VStr(text))
      else Fail(NotImplemented)
  }

  // ---- the tree walk ----

  /**
   * Evaluating `e` against `entity` raises no JVM exception outside the
   * typed error model (operands are visited left to right and a failure
   * stops the walk, so only what is actually reached has to be defined).
   */
  predicate Defined(e: Expr, entity: Entity, parse: DateParser)
    decreases e, 0
  {
    match e
    case Member(path) => MemberDefined(path, entity)
    case Literal(kind, text) => LiteralDefined(kind, text, parse)
    case Unary(_, x) =>
      Defined(x, entity, parse) &&
      (Eval(x, entity, parse).Ok? ==> Eval(x, entity, parse).value != VNull)
    case Binary(op, l, r) =>
      Defined(l, entity, parse) &&
      (Eval(l, entity, parse).Ok? ==>
        Defined(r, entity, parse) &&
        (Eval(r, entity, parse).Ok? ==>
          OperandsDefined(op, Eval(l, entity, parse).value, Eval(r, entity, parse).value)))
    case BinaryList(_, head, items) =>
      Defined(head, entity, parse) && (Eval(head, entity, parse).Ok? ==> AllDefined(items, entity, parse))
    case Method(m, ps) =>
      AllDefined(ps, entity, parse) &&
      (EvalAll(ps, entity, parse).Ok? && m == ContainsMethod ==> |ps| >= 2)
    case Enum(t, names) => EnumDefined(t, names)
    case _ => true
  }

  /** Defined for each expression of a list evaluated left to right. */
  predicate AllDefined(es: seq<Expr>, entity: Entity, parse: DateParser)
    decreases es, 0
  {
    es == [] ||
    (Defined(es[0], entity, parse) &&
     (Eval(es[0], entity, parse).Ok? ==> AllDefined(es[1..], entity, parse)))
  }

  /**
   * `expression.accept(FilterExpressionVisitor(entity))`: the only failures
   * are the visitor's own statuses, never NOT_FOUND or the provider's error.
   */
  function Eval(e: Expr, entity: Entity, parse: DateParser): (r: Result<Value>)
    requires Defined(e, entity, parse)
    ensures r.Err? ==> IsVisitorError(r.error)
    decreases e, 1
  {
    match e
    case Member(path) => EvalMember(path, entity)
    case Literal(kind, text) => EvalLiteral(kind, text, parse)
    case Unary(op, x) =>
      var v := Eval(x, entity, parse);
      if v.Err? then v else EvalUnary(op, v.value)
    case Binary(op, l, r) =>
      var lv := Eval(l, entity, parse);
      if lv.Err? then lv
      else
        var rv := Eval(r, entity, parse);
        if rv.Err? then rv else EvalBinary(op, lv.value, rv.value)
    case BinaryList(_, head, items) =>
      var hv := Eval(head, entity, parse);
      if hv.Err? then hv
      else
        var vs := EvalAll(items, entity, parse);
        if vs.Err? then Err(vs.error) else Fail(NotImplemented)
    case Method(m, ps) =>
      var vs := EvalAll(ps, entity, parse);
      if vs.Err? then Err(vs.error) else EvalMethod(m, vs.value)
    case Enum(t, names) => EvalEnum(t, names)
    case TypeLiteral(_) => Fail(NotImplemented)
    case Alias(_) => Fail(NotImplemented)
    case LambdaExpression(_, _, _) => Fail(NotImplemented)
    case LambdaReference(_) => Fail(NotImplemented)
  }

  /** The expressions of a list evaluated left to right; the first failure wins. */
  function EvalAll(es: seq<Expr>, entity: Entity, parse: DateParser): (r: Result<seq<Value>>)
    requires AllDefined(es, entity, parse)
    ensures r.Ok? ==> |r.value| == |es|
    ensures r.Err? ==> IsVisitorError(r.error)
    decreases es, 1
  {
    if es == [] then Ok([])
    else
      var v := Eval(es[0], entity, parse);
      if v.Err? then Err(v.error)
      else
        var rest := EvalAll(es[1..], entity, parse);
        if rest.Err? then rest else Ok([v.value] + rest.value)
  }

  // ---- properties of the operators ----

  /** NOT applies to Booleans only, anything else is BAD_REQUEST, and NOT NOT gives back the operand. */
  lemma NotInvolution(v: Value)
    ensures EvalUnary(Not, v).Ok? <==> v.VBool?
    ensures EvalUnary(Not, v).Err? ==> EvalUnary(Not, v) == Fail(BadRequest)
    ensures v.VBool? ==> EvalUnary(Not, EvalUnary(Not, v).value) == Ok(v)
  {
  }

  /**
   * MINUS applies to Ints only and `-(-x) == x` on every Int; the one Int
   * without a positive counterpart, MinInt, is its own negation.
   */
  lemma {:induction false} MinusInvolution(v: Value)
    requires v.VInt? ==> IsInt(v.i)
    ensures EvalUnary(Minus, v).Ok? <==> v.VInt?
    ensures EvalUnary(Minus, v).Err? ==> EvalUnary(Minus, v) == Fail(BadRequest)
    ensures v.VInt? ==> EvalUnary(Minus, EvalUnary(Minus, v).value) == Ok(v)
    ensures EvalUnary(Minus, VInt(MinInt)) == Ok(VInt(MinInt))
  {
    assert WrapInt(-MinInt) == MinInt;
    if v.VInt? && v.i != MinInt {
      assert IsInt(-v.i);
    }
  }

  /** Arithmetic needs two Ints (BAD_REQUEST otherwise) and always yields an Int in range. */
  lemma ArithmeticOutcome(op: BinaryOp, left: Value, right: Value)
    requires IsArithmetic(op)
    requires (op == Div || op == Mod) && left.VInt? && right.VInt? ==> right.i != 0
    requires left.VInt? ==> IsInt(left.i)
    requires right.VInt? ==> IsInt(right.i)
    ensures EvalArithmetic(op, left, right).Ok? <==> left.VInt? && right.VInt?
    ensures EvalArithmetic(op, left, right).Err? ==> EvalArithmetic(op, left, right) == Fail(BadRequest)
    ensures EvalArithmetic(op, left, right).Ok? ==>
      EvalArithmetic(op, left, right).value.VInt? && IsInt(EvalArithmetic(op, left, right).value.i)
  {
    if left.VInt? && right.VInt? && op == Mod {
      IntRemInRange(left.i, right.i);
    }
  }

  /** The exact mathematical result whenever it fits in an Int (division truncates). */
  lemma ArithmeticExactInRange(op: BinaryOp, a: int, b: int)
    requires IsArithmetic(op) && (op == Div || op == Mod ==> b != 0)
    ensures var exact := if op == Add then a + b else if op == Sub then a - b
                         else if op == Mul then a * b else if op == Div then TruncDiv(a, b)
                         else TruncRem(a, b);
      IsInt(exact) ==> EvalArithmetic(op, VInt(a), VInt(b)) == Ok(VInt(exact))
  {
  }

  /** `(a div b) mul b add (a mod b) eq a` holds for every pair of Ints with a non-zero divisor. */
  lemma DivModIdentity(a: int, b: int)
    requires IsInt(a) && IsInt(b) && b != 0
    ensures var q := EvalArithmetic(Div, VInt(a), VInt(b)).value;
      var m := EvalArithmetic(Mod, VInt(a), VInt(b)).value;
      EvalArithmetic(Add, EvalArithmetic(Mul, q, VInt(b)).value, m) == Ok(VInt(a))
  {
    IntDivRemIdentity(a, b);
  }

  /** AND and OR need two Booleans (BAD_REQUEST otherwise) and do not depend on operand order. */
  lemma LogicalOutcome(op: BinaryOp, left: Value, right: Value)
    requires IsLogical(op)
    ensures EvalLogical(op, left, right).Ok? <==> left.VBool? && right.VBool?
    ensures EvalLogical(op, left, right).Err? ==> EvalLogical(op, left, right) == Fail(BadRequest)
    ensures EvalLogical(op, left, right) == EvalLogical(op, right, left)
  {
  }

  /**
   * The three outcomes of a comparison: BAD_REQUEST for operands of
   * different classes or non-Comparable ones, INTERNAL_SERVER_ERROR for
   * comparable classes it has no case for (Long, Double, ...), a Boolean
   * otherwise.
   */
  lemma ComparisonOutcome(op: BinaryOp, left: Value, right: Value)
    ensures EvalComparison(op, left, right) == Fail(BadRequest) <==>
      !IsJavaComparable(left) || !IsJavaComparable(right) || ClassOf(left) != ClassOf(right)
    ensures EvalComparison(op, left, right) == Fail(InternalServerError) <==>
      IsComparable(left, right) && !IsOrderedKind(left)
    ensures EvalComparison(op, left, right).Ok? <==> IsComparable(left, right) && IsOrderedKind(left)
    ensures EvalComparison(op, left, right).Ok? ==> EvalComparison(op, left, right).value.VBool?
  {
  }

  /** Two values the comparison finds equal: the same value, or instants at the same millisecond. */
  predicate SameValue(left: Value, right: Value)
  {
    if left.VCalendar? || left.VDate? then ClassOf(left) == ClassOf(right) && left.at.millis == right.at.millis
    else left == right
  }

  lemma CompareValuesZero(left: Value, right: Value)
    requires IsOrderedKind(left) && ClassOf(left) == ClassOf(right)
    ensures CompareValues(left, right) == 0 <==> SameValue(left, right)
    ensures CompareValues(right, left) == -CompareValues(left, right)
  {
    if left.VStr? {
      CompareStringsOrder(left.s, right.s);
    }
  }

  /** `eq` is true exactly on equal values and `ne` is always its negation. */
  lemma EqualityComparison(left: Value, right: Value)
    requires IsComparable(left, right) && IsOrderedKind(left)
    ensures EvalComparison(Eq, left, right) == Ok(VBool(SameValue(left, right)))
    ensures EvalComparison(Ne, left, right) == Ok(VBool(!SameValue(left, right)))
  {
    CompareValuesZero(left, right);
  }

  /**
   * Swapping the operands turns `lt` into `gt` and `le` into `ge`, and
   * leaves `eq` and `ne` alone; `le` is `lt` or `eq`; exactly one of `lt`,
   * `eq`, `gt` holds.
   */
  lemma ComparisonSwap(left: Value, right: Value)
    requires IsComparable(left, right) && IsOrderedKind(left)
    ensures EvalComparison(Lt, left, right) == EvalComparison(Gt, right, left)
    ensures EvalComparison(Le, left, right) == EvalComparison(Ge, right, left)
    ensures EvalComparison(Eq, left, right) == EvalComparison(Eq, right, left)
    ensures EvalComparison(Ne, left, right) == EvalComparison(Ne, right, left)
    ensures EvalComparison(Le, left, right).value.b ==
      (EvalComparison(Lt, left, right).value.b || EvalComparison(Eq, left, right).value.b)
    ensures (if EvalComparison(Lt, left, right).value.b then 1 else 0) +
      (if EvalComparison(Eq, left, right).value.b then 1 else 0) +
      (if EvalComparison(Gt, left, right).value.b then 1 else 0) == 1
  {
    CompareValuesZero(left, right);
  }

  /** The operators Olingo parses but this visitor does not evaluate (has, in). */
  lemma UnsupportedOperators(op: BinaryOp, left: Value, right: Value)
    requires OperandsDefined(op, left, right)
    ensures EvalBinary(op, left, right) == Fail(NotImplemented) <==>
      !IsArithmetic(op) && !IsComparison(op) && !IsLogical(op)
    ensures op == Has || op == In ==> EvalBinary(op, left, right) == Fail(NotImplemented)
  {
  }

  /** `contains(s, t)` is true exactly when `t` occurs somewhere in `s`; other parameters are BAD_REQUEST. */
  lemma ContainsMethodSubstring(args: seq<Value>)
    requires |args| >= 2
    ensures args[0].VStr? && args[1].VStr? ==>
      EvalMethod(ContainsMethod, args) == Ok(VBool(exists i :: Text.OccursAt(args[0].s, args[1].s, i)))
    ensures !(args[0].VStr? && args[1].VStr?) ==> EvalMethod(ContainsMethod, args) == Fail(BadRequest)
  {
    if args[0].VStr? && args[1].VStr? {
      Text.ContainsIsSubstring(args[0].s, args[1].s);
    }
  }

  // ---- properties of the tree walk ----

  /** A quoted string literal evaluates to the text between its quotes. */
  lemma StringLiteralRoundTrip(s: string, entity: Entity, parse: DateParser)
    ensures Defined(Literal(EdmString, "'" + s + "'"), entity, parse)
    ensures Eval(Literal(EdmString, "'" + s + "'"), entity, parse) == Ok(VStr(s))
  {
    StringLiteralUnquotes(s);
  }

  /** An integer literal of any of the three integral kinds evaluates to the Int it spells. */
  lemma IntLiteralRoundTrip(kind: EdmKind, n: int, entity: Entity, parse: DateParser)
    requires IsIntKind(kind) && IsInt(n)
    ensures Defined(Literal(kind, Text.ShowInt(n)), entity, parse)
    ensures Eval(Literal(kind, Text.ShowInt(n)), entity, parse) == Ok(VInt(n))
  {
    ParseIntShowInt(n);
  }

  /** Literals of the other kinds (Boolean, Decimal, Guid, the null literal, ...) are NOT_IMPLEMENTED. */
  lemma UnsupportedLiteral(kind: EdmKind, text: string, entity: Entity, parse: DateParser)
    requires kind != EdmString && !IsIntKind(kind) && !IsDateKind(kind)
    ensures Defined(Literal(kind, text), entity, parse)
    ensures Eval(Literal(kind, text), entity, parse) == Fail(NotImplemented)
  {
  }

  /**
   * A date literal is the first of its formats that parses it: the
   * dateTimeOffset form with seconds is tried before the form without.
   */
  lemma DateLiteralFirstFormat(kind: EdmKind, text: string, entity: Entity, parse: DateParser)
    requires IsDateKind(kind) && Defined(Literal(kind, text), entity, parse)
    ensures exists k ::
              && 0 <= k < |DateFormatsOf(kind)|
              && parse(DateFormatsOf(kind)[k], text).Some?
              && (forall j :: 0 <= j < k ==> parse(DateFormatsOf(kind)[j], text).None?)
              && Eval(Literal(kind, text), entity, parse) == Ok(DateValue(kind, parse(DateFormatsOf(kind)[k], text).value))
  {
    FirstParseIsFirstSuccess(parse, DateFormatsOf(kind), text);
  }

  /** A one-segment primitive-property path reads the property; any other path is NOT_IMPLEMENTED. */
  lemma MemberReadsProperty(path: seq<ResourcePart>, entity: Entity, parse: DateParser)
    requires Defined(Member(path), entity, parse)
    ensures IsPrimitivePath(path) ==> Eval(Member(path), entity, parse) == Ok(entity[path[0].property])
    ensures IsPrimitivePath(path) ==> Eval(Member(path), entity, parse) != Ok(VNull)
    ensures !IsPrimitivePath(path) ==> Eval(Member(path), entity, parse) == Fail(NotImplemented)
  {
  }

  /** An enum member whose value is an integer's text evaluates to that Int when its type is integral. */
  lemma EnumRoundTrip(t: EnumType, name: string, rest: seq<string>, n: int)
    requires IsIntKind(t.underlying) && IsInt(n)
    requires name in t.members && t.members[name] == Some(Text.ShowInt(n))
    ensures EnumDefined(t, [name] + rest)
    ensures EvalEnum(t, [name] + rest) == Ok(VInt(n))
  {
    ParseIntShowInt(n);
  }

  /** Enums evaluate to null without a name, an unknown member or a member without a value. */
  lemma EnumNull(t: EnumType, names: seq<string>)
    requires names == [] || names[0] !in t.members || t.members[names[0]].None?
    ensures EnumDefined(t, names)
    ensures EvalEnum(t, names) == Ok(VNull)
  {
  }

  /** Nodes the visitor rejects outright, before looking at any operand. */
  lemma UnsupportedNodes(e: Expr, entity: Entity, parse: DateParser)
    requires e.TypeLiteral? || e.Alias? || e.LambdaExpression? || e.LambdaReference?
    ensures Defined(e, entity, parse)
    ensures Eval(e, entity, parse) == Fail(NotImplemented)
  {
  }

  /** A binary list (the `in` operator) is NOT_IMPLEMENTED once its operands have been visited without failure. */
  lemma BinaryListRejected(op: BinaryOp, head: Expr, items: seq<Expr>, entity: Entity, parse: DateParser)
    requires Defined(BinaryList(op, head, items), entity, parse)
    ensures Eval(head, entity, parse).Err? ==> Eval(BinaryList(op, head, items), entity, parse) == Eval(head, entity, parse)
    ensures Eval(head, entity, parse).Ok? && EvalAll(items, entity, parse).Ok? ==>
      Eval(BinaryList(op, head, items), entity, parse) == Fail(NotImplemented)
  {
  }

  /**
   * Operands are visited left to right and the first failure is the
   * result: a failing left operand hides the right one.
   */
  lemma BinaryEvaluationOrder(op: BinaryOp, l: Expr, r: Expr, entity: Entity, parse: DateParser)
    requires Defined(Binary(op, l, r), entity, parse)
    ensures Eval(l, entity, parse).Err? ==> Eval(Binary(op, l, r), entity, parse) == Eval(l, entity, parse)
    ensures Eval(l, entity, parse).Ok? && Eval(r, entity, parse).Err? ==>
      Eval(Binary(op, l, r), entity, parse) == Eval(r, entity, parse)
    ensures Eval(l, entity, parse).Ok? && Eval(r, entity, parse).Ok? ==>
      Eval(Binary(op, l, r), entity, parse) ==
        EvalBinary(op, Eval(l, entity, parse).value, Eval(r, entity, parse).value)
  {
  }

  /**
   * A list of operands evaluates to the value of each operand, in order;
   * when it fails, it fails with the error of the first operand that fails.
   */
  lemma {:induction false} EvalAllElements(es: seq<Expr>, entity: Entity, parse: DateParser)
    requires AllDefined(es, entity, parse)
    ensures EvalAll(es, entity, parse).Ok? ==>
      forall i :: 0 <= i < |es| ==>
        Defined(es[i], entity, parse) && Eval(es[i], entity, parse) == Ok(EvalAll(es, entity, parse).value[i])
    ensures EvalAll(es, entity, parse).Err? ==>
      exists k ::
        && 0 <= k < |es| && Defined(es[k], entity, parse)
        && Eval(es[k], entity, parse) == Err(EvalAll(es, entity, parse).error)
        && (forall i :: 0 <= i < k ==> Defined(es[i], entity, parse) && Eval(es[i], entity, parse).Ok?)
  {
    if EvalAll(es, entity, parse).Ok? {
      forall i | 0 <= i < |es|
        ensures Defined(es[i], entity, parse) && Eval(es[i], entity, parse) == Ok(EvalAll(es, entity, parse).value[i])
      {
        EvalAllValue(es, entity, parse, i);
      }
    } else {
      EvalAllFirstError(es, entity, parse);
    }
  }

  lemma {:induction false} EvalAllValue(es: seq<Expr>, entity: Entity, parse: DateParser, i: nat)
    requires AllDefined(es, entity, parse) && EvalAll(es, entity, parse).Ok? && i < |es|
    ensures Defined(es[i], entity, parse) && Eval(es[i], entity, parse) == Ok(EvalAll(es, entity, parse).value[i])
  {
    var rest := es[1..];
    var v, tail := Eval(es[0], entity, parse), EvalAll(rest, entity, parse);
    assert tail.Ok? && EvalAll(es, entity, parse).value == [v.value] + tail.value;
    if i > 0 {
      EvalAllValue(rest, entity, parse, i - 1);
      assert es[i] == rest[i - 1];
    }
  }

  lemma {:induction false} EvalAllFirstError(es: seq<Expr>, entity: Entity, parse: DateParser)
    requires AllDefined(es, entity, parse) && EvalAll(es, entity, parse).Err?
    ensures exists k ::
        && 0 <= k < |es| && Defined(es[k], entity, parse)
        && Eval(es[k], entity, parse) == Err(EvalAll(es, entity, parse).error)
        && (forall i :: 0 <= i < k ==> Defined(es[i], entity, parse) && Eval(es[i], entity, parse).Ok?)
  {
    if Eval(es[0], entity, parse).Err? {
      assert Defined(es[0], entity, parse) && Eval(es[0], entity, parse) == Err(EvalAll(es, entity, parse).error);
    } else {
      var rest := es[1..];
      var tail := EvalAll(rest, entity, parse);
      assert tail.Err? && EvalAll(es, entity, parse).error == tail.error;
      EvalAllFirstError(rest, entity, parse);
      var k :| 0 <= k < |rest| && Defined(rest[k], entity, parse) &&
        Eval(rest[k], entity, parse) == Err(tail.error) &&
        (forall i :: 0 <= i < k ==> Defined(rest[i], entity, parse) && Eval(rest[i], entity, parse).Ok?);
      assert es[k + 1] == rest[k];
      forall i | 0 <= i < k + 1 ensures Defined(es[i], entity, parse) && Eval(es[i], entity, parse).Ok? {
        if i > 0 {
          assert es[i] == rest[i - 1];
        }
      }
    }
  }
}
