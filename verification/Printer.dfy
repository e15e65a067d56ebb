/** Format templates as Rust's grammar has them, their printed form, and exactly which placeholders
    the analyser reads back. */
module Printer {
  import opened Allocation
  import opened WrapKinds
  import opened Template

  datatype Arg = NoArg | IndexArg(n: usize) | NameArg(id: string)

  datatype Count = Literal(n: nat) | IndexCount(index: usize) | NameCount(id: string)

  datatype Precision = Star | Given(count: Count)

  datatype Type = Plain | Question | HexQuestion(hex: char) | Letter(c: char)

  /** `[[fill]align][sign]['#']['0'][width]['.' precision]type` */
  datatype Spec = Spec(fill: Option<char>, align: Option<char>, sign: Option<char>, alternate: bool, zero: bool,
                       width: Option<Count>, precision: Option<Precision>, ty: Type)

  /** White space may stand before the closing brace. */
  datatype Hole = Hole(arg: Arg, spec: Option<Spec>, space: string)

  datatype Piece = Text(c: char) | Placeholder(hole: Hole)

  // ---------------------------------------------------------------------------------------------
  // What the grammar allows

  ghost predicate IsIdent(table: CharTable, id: string) {
    id != "" && table.IdentStart(id[0]) && forall i :: 0 <= i < |id| ==> table.IdentPart(id[i])
  }

  ghost predicate CountOk(table: CharTable, c: Count) {
    c.NameCount? ==> IsIdent(table, c.id)
  }

  ghost predicate SpecOk(table: CharTable, sp: Spec) {
    && (sp.fill.Some? ==> sp.align.Some?)
    && (sp.align.Some? ==> sp.align.value in "<^>")
    && (sp.sign.Some? ==> sp.sign.value in "+-")
    && (sp.width.Some? ==> CountOk(table, sp.width.value))
    && (sp.precision.Some? && sp.precision.value.Given? ==> CountOk(table, sp.precision.value.count))
    && (sp.ty.HexQuestion? ==> sp.ty.hex in "xX")
    && (sp.ty.Letter? ==> table.alphabetic(sp.ty.c))
  }

  ghost predicate Blank(table: CharTable, s: string) {
    forall i :: 0 <= i < |s| ==> table.space(s[i])
  }

  ghost predicate HoleOk(table: CharTable, h: Hole) {
    && (h.arg.NameArg? ==> IsIdent(table, h.arg.id))
    && (h.spec.Some? ==> SpecOk(table, h.spec.value))
    && Blank(table, h.space)
  }

  // ---------------------------------------------------------------------------------------------
  // Printing.  Each printer takes the text that follows.

  function Decimal(n: nat): (s: string)
    ensures s != "" && forall i :: 0 <= i < |s| ==> IsDigit(s[i])
    decreases n
  {
    if n < 10 then [DigitChar(n)] else Decimal(n / 10) + [DigitChar(n % 10)]
  }

  function DigitChar(d: nat): (c: char)
    requires d < 10
    ensures IsDigit(c) && Digit(c) == d
  {
    '0' + d as char
  }

  function Optional(c: Option<char>): string {
    if c.Some? then [c.value] else ""
  }

  function Flags(sp: Spec): string {
    Optional(sp.align) + Optional(sp.sign) + (if sp.alternate then "#" else "") + (if sp.zero then "0" else "")
  }

  function CountText(c: Count): string {
    match c
    case Literal(n) => Decimal(n)
    case IndexCount(n) => Decimal(n) + "$"
    case NameCount(id) => id + "$"
  }

  function WidthText(w: Option<Count>): string {
    if w.Some? then CountText(w.value) else ""
  }

  function PrecisionText(p: Option<Precision>): string {
    match p
    case None => ""
    case Some(Star) => ".*"
    case Some(Given(c)) => "." + CountText(c)
  }

  function TypeText(ty: Type): string {
    match ty
    case Plain => ""
    case Question => "?"
    case HexQuestion(hex) => [hex, '?']
    case Letter(c) => [c]
  }

  function SpecText(sp: Spec, tail: string): string {
    Optional(sp.fill) + (Flags(sp) + (WidthText(sp.width) + (PrecisionText(sp.precision) + (TypeText(sp.ty) + tail))))
  }

  function ArgText(a: Arg): string {
    match a
    case NoArg => ""
    case IndexArg(n) => Decimal(n)
    case NameArg(id) => id
  }

  /** A placeholder from just after its opening brace. */
  function HoleText(h: Hole, rest: string): string {
    var close := h.space + ("}" + rest);
    ArgText(h.arg) + (if h.spec.Some? then ":" + SpecText(h.spec.value, close) else close)
  }

  function Print(pieces: seq<Piece>): string {
    if pieces == [] then ""
    else
      match pieces[0]
      case Text(c) => (if c == '{' || c == '}' then [c, c] else [c]) + Print(pieces[1..])
      case Placeholder(h) => "{" + HoleText(h, Print(pieces[1..]))
  }

  // ---------------------------------------------------------------------------------------------
  // What each placeholder uses

  function ArgSlot(a: Arg): Slot {
    match a
    case NoArg => NextArg
    case IndexArg(n) => Index(n)
    case NameArg(id) => Name(id)
  }

  function CountUses(c: Count): seq<Use> {
    match c
    case Literal(_) => []
    case IndexCount(n) => [Use(Index(n), Measure)]
    case NameCount(id) => [Use(Name(id), Measure)]
  }

  function WidthUses(w: Option<Count>): seq<Use> {
    if w.Some? then CountUses(w.value) else []
  }

  /** A star takes the next argument. */
  function PrecisionUses(p: Option<Precision>): seq<Use> {
    match p
    case None => []
    case Some(Star) => [Use(NextArg, Measure)]
    case Some(Given(c)) => CountUses(c)
  }

  function TypeKind(ty: Type): WrapKind {
    match ty
    case Plain => Display
    case Question => Debug
    case HexQuestion(_) => Debug
    case Letter(c) => KindOf(Some(c))
  }

  function HoleUses(h: Hole): seq<Use> {
    match h.spec
    case None => [Use(ArgSlot(h.arg), Display)]
    case Some(sp) => WidthUses(sp.width) + PrecisionUses(sp.precision) + [Use(ArgSlot(h.arg), TypeKind(sp.ty))]
  }

  // ---------------------------------------------------------------------------------------------
  // What the analyser records for each placeholder

  /** A fill character that the flag loop does not take. */
  predicate ForeignFill(sp: Spec) {
    sp.fill.Some? && !IsFlag(sp.fill.value)
  }

  predicate NamedThenPrecision(sp: Spec) {
    sp.width.Some? && sp.width.value.NameCount? && sp.precision.Some?
  }

  /** The width and precision arguments of a spec. */
  function Counts(sp: Spec): seq<Use> {
    WidthUses(sp.width) + PrecisionUses(sp.precision)
  }

  /** Those the analyser can see: not the argument of a star. */
  function SeenCounts(sp: Spec): seq<Use> {
    WidthUses(sp.width) + (if sp.precision == Some(Star) then [] else PrecisionUses(sp.precision))
  }

  /** Those it sees: none behind a foreign fill or a width `0$`, and no precision behind a named width. */
  function ReadCounts(sp: Spec): seq<Use> {
    if ForeignFill(sp) || sp.width == Some(IndexCount(0)) then []
    else if NamedThenPrecision(sp) then WidthUses(sp.width)
    else SeenCounts(sp)
  }

  /** The character taken for the type: the fill, the `$`, the dot, or the first of the type. */
  function ReadKind(sp: Spec): WrapKind {
    if ForeignFill(sp) then KindOf(sp.fill)
    else if sp.width == Some(IndexCount(0)) || NamedThenPrecision(sp) then Display
    else KindOf(TypeChar(sp.ty))
  }

  function TypeChar(ty: Type): Option<char> {
    if ty.Plain? then None else Some(TypeText(ty)[0])
  }

  function HoleReading(h: Hole): seq<Use> {
    match h.spec
    case None => [Use(ArgSlot(h.arg), Display)]
    case Some(sp) => ReadCounts(sp) + [Use(ArgSlot(h.arg), ReadKind(sp))]
  }

  /** The specs whose uses are recorded exactly. */
  predicate SpecUnderstood(sp: Spec) {
    if ForeignFill(sp) then Counts(sp) == [] && TypeKind(sp.ty) == KindOf(sp.fill)
    else
      && sp.width != Some(IndexCount(0))
      && sp.precision != Some(Star)
      && !sp.ty.HexQuestion?
      && (NamedThenPrecision(sp) ==> PrecisionUses(sp.precision) == [] && TypeKind(sp.ty) == Display)
  }

  predicate HoleUnderstood(h: Hole) {
    h.spec.Some? ==> SpecUnderstood(h.spec.value)
  }

  /** The specs that leave the tables right: a width or precision argument may be overlooked when it is
      an argument the placeholder mentions elsewhere. */
  predicate SpecHarmless(sp: Spec, own: Slot) {
    if sp.precision == Some(Star) then false
    else if ForeignFill(sp) then
      TypeKind(sp.ty) == KindOf(sp.fill) && forall u :: u in Counts(sp) ==> u.slot == own
    else if sp.width == Some(IndexCount(0)) then
      TypeKind(sp.ty) == Display && forall u :: u in Counts(sp) ==> u.slot == own
    else if NamedThenPrecision(sp) then
      TypeKind(sp.ty) == Display
      && forall u :: u in PrecisionUses(sp.precision) ==> u.slot == own || u.slot == Name(sp.width.value.id)
    else
      !sp.ty.HexQuestion?
  }

  predicate HoleHarmless(h: Hole) {
    h.spec.Some? ==> SpecHarmless(h.spec.value, ArgSlot(h.arg))
  }

  // ---------------------------------------------------------------------------------------------
  // Numbers

  lemma {:induction false} DecimalValue(n: nat)
    ensures DigitsValue(Decimal(n)) == n
    decreases n
  {
    if n >= 10 {
      DecimalValue(n / 10);
      assert Decimal(n)[..|Decimal(n)| - 1] == Decimal(n / 10);
    } else {
      assert DigitsValue([DigitChar(n)][..0]) == 0;
    }
  }

  lemma {:induction false} DecimalHead(n: nat)
    ensures Decimal(n)[0] == '0' <==> n == 0
    ensures n == 0 ==> Decimal(n) == "0"
    decreases n
  {
    if n >= 10 {
      DecimalHead(n / 10);
    } else {
      assert Digit(DigitChar(n)) == n;
    }
  }

  lemma NumberReadsBack(n: nat, rest: string)
    requires StopsAt(IsDigit, rest)
    ensures TakeNumber(Decimal(n) + rest) == (if n <= USIZE_MAX then n else 0, rest)
  {
    TakeWhileExact(IsDigit, Decimal(n), rest);
    DecimalValue(n);
  }

  // ---------------------------------------------------------------------------------------------
  // Counts

  lemma CountLiteral(n: nat, rest: string)
    requires StopsAt(IsDigit, rest) && (rest == "" || rest[0] != '$')
    ensures ParseCount(Decimal(n) + rest) == ([], rest)
  {
    NumberReadsBack(n, rest);
    assert IsDigit((Decimal(n) + rest)[0]);
  }

  lemma CountIndex(n: usize, rest: string)
    ensures ParseCount(Decimal(n) + ("$" + rest)) == ([Use(Index(n), Measure)], rest)
  {
    NumberReadsBack(n, "$" + rest);
    assert IsDigit((Decimal(n) + ("$" + rest))[0]);
    assert ("$" + rest)[1..] == rest;
  }

  lemma CountNothing(s: string)
    requires s == "" || (s[0] != '*' && !IsDigit(s[0]))
    ensures ParseCount(s) == ([], s)
  {
  }

  // ---------------------------------------------------------------------------------------------
  // The tail: named reference and type

  /** Text that ends a placeholder: a closing brace, or white space before it. */
  ghost predicate Closes(table: CharTable, rest: string) {
    rest != "" && (rest[0] == '}' || table.space(rest[0]))
  }

  /** The character read as the type: of no type, the white space if there is any. */
  function TypeRead(ty: Type, rest: string): Option<char> {
    if !ty.Plain? then TypeChar(ty)
    else if rest == "" || rest[0] == '}' then None
    else Some(rest[0])
  }

  /** What is left after it: of a debug-hex type only the first character is read. */
  function AfterType(ty: Type, rest: string): string {
    if ty.HexQuestion? then "?" + rest
    else if !ty.Plain? || rest == "" || rest[0] == '}' then rest
    else rest[1..]
  }

  lemma SpaceStops(table: CharTable, rest: string)
    requires table.AgreesWithAscii() && Closes(table, rest)
    ensures StopsAt(c => table.IdentPart(c), rest) && !table.IdentStart(rest[0])
    ensures !IsDigit(rest[0]) && rest[0] != '$' && rest[0] != '*' && rest[0] != '.' && rest[0] != ':' && rest[0] != '{' && rest[0] != '?'
    ensures rest[0] != ' ' ==> !IsFlag(rest[0])
  {
    var c := rest[0];
    assert c < 128 as char || table.space(c);
  }

  lemma TailOfType(table: CharTable, ty: Type, rest: string)
    requires table.AgreesWithAscii() && Closes(table, rest)
    requires ty.Letter? ==> table.alphabetic(ty.c)
    requires ty.HexQuestion? ==> ty.hex in "xX"
    ensures ParseTail(table, TypeText(ty) + rest) == ([], TypeRead(ty, rest), AfterType(ty, rest))
  {
    var s := TypeText(ty) + rest;
    var part := c => table.IdentPart(c);
    SpaceStops(table, rest);
    match ty
    case Plain =>
      assert s == rest;
    case Question =>
      assert s[0] == '?' && s[1..] == rest;
    case HexQuestion(hex) =>
      assert s == [hex] + ("?" + rest);
      TakeWhileExact(part, [hex], "?" + rest);
    case Letter(c) =>
      assert s == [c] + rest;
      TakeWhileExact(part, [c], rest);
  }

  lemma LastOfType(table: CharTable, ty: Type, rest: string)
    requires table.AgreesWithAscii() && Closes(table, rest)
    requires ty.Letter? ==> table.alphabetic(ty.c)
    requires ty.HexQuestion? ==> ty.hex in "xX"
    ensures ParseLast(TypeText(ty) + rest) == (TypeRead(ty, rest), AfterType(ty, rest))
  {
    var s := TypeText(ty) + rest;
    match ty
    case Plain => assert s == rest;
    case Question => assert s[0] == '?' && s[1..] == rest;
    case HexQuestion(hex) => assert s[0] == hex && s[1..] == "?" + rest;
    case Letter(c) => assert s[0] == c && s[1..] == rest;
  }

  lemma TailOfName(table: CharTable, id: string, ty: Type, rest: string)
    requires table.AgreesWithAscii() && Closes(table, rest) && IsIdent(table, id)
    requires ty.Letter? ==> table.alphabetic(ty.c)
    requires ty.HexQuestion? ==> ty.hex in "xX"
    ensures ParseTail(table, id + ("$" + (TypeText(ty) + rest)))
         == ([Use(Name(id), Measure)], TypeRead(ty, rest), AfterType(ty, rest))
  {
    var after := TypeText(ty) + rest;
    var s := id + ("$" + after);
    TakeWhileExact(c => table.IdentPart(c), id, "$" + after);
    assert s[0] == id[0] && ("$" + after)[1..] == after;
    LastOfType(table, ty, rest);
    hide TypeText, ParseLast, TypeRead, AfterType;
  }

  // ---------------------------------------------------------------------------------------------
  // How each part of a spec begins

  /** The text does not go on with a count. */
  ghost predicate CountEnds(s: string) {
    s != "" && !IsDigit(s[0]) && s[0] != '$' && s[0] != '*'
  }

  /** Nor does it begin like a flag. */
  ghost predicate Calm(s: string) {
    CountEnds(s) && !IsFlag(s[0])
  }

  lemma IdentStartCalm(table: CharTable, c: char, s: string)
    requires table.AgreesWithAscii() && table.IdentStart(c)
    ensures Calm([c] + s) && c != '.' && c != ':' && c != '}'
  {
  }

  lemma TypeHead(table: CharTable, ty: Type, rest: string)
    requires table.AgreesWithAscii() && Closes(table, rest)
    requires ty.Letter? ==> table.alphabetic(ty.c)
    requires ty.HexQuestion? ==> ty.hex in "xX"
    ensures CountEnds(TypeText(ty) + rest) && (TypeText(ty) + rest)[0] != '.'
    ensures !ty.Plain? || rest[0] != ' ' ==> Calm(TypeText(ty) + rest)
  {
    var s := TypeText(ty) + rest;
    SpaceStops(table, rest);
    match ty
    case Plain => assert s == rest;
    case Question => assert s[0] == '?';
    case HexQuestion(hex) => assert s[0] == hex;
    case Letter(c) => assert s[0] == c; IdentStartCalm(table, c, rest);
  }

  lemma PrecisionHead(p: Option<Precision>, tail: string)
    requires CountEnds(tail)
    ensures CountEnds(PrecisionText(p) + tail)
    ensures p.Some? || Calm(tail) ==> Calm(PrecisionText(p) + tail)
    ensures p.Some? ==> |PrecisionText(p)| >= 2 && (PrecisionText(p) + tail)[0] == '.'
  {
    if p.None? {
      assert PrecisionText(p) + tail == tail;
    }
  }

  lemma NameHead(table: CharTable, id: string, tail: string)
    requires table.AgreesWithAscii() && IsIdent(table, id)
    ensures Calm(id + tail) && (id + tail)[0] != '.'
  {
    IdentStartCalm(table, id[0], "");
  }

  // ---------------------------------------------------------------------------------------------
  // Reading a spec part by part

  lemma FlagsAreFlags(table: CharTable, sp: Spec)
    requires SpecOk(table, sp)
    ensures forall i :: 0 <= i < |Flags(sp)| ==> IsFlag(Flags(sp)[i])
  {
  }

  /** The flag loop takes fill, flags and a leading zero of the width, if the width begins with one. */
  lemma FlagsRead(table: CharTable, sp: Spec, zeros: string, after: string)
    requires SpecOk(table, sp) && (sp.fill.Some? ==> IsFlag(sp.fill.value))
    requires zeros == "" || zeros == "0"
    requires StopsAt(IsFlag, after)
    ensures TakeWhile(IsFlag, Optional(sp.fill) + (Flags(sp) + (zeros + after))).1 == after
  {
    FlagsAreFlags(table, sp);
    assert TakeWhile(IsFlag, after).1 == after;
    hide Flags, TakeWhile, SpecOk;
    TakeWhileThrough(IsFlag, Optional(sp.fill), Flags(sp) + (zeros + after));
    TakeWhileThrough(IsFlag, Flags(sp), zeros + after);
    TakeWhileThrough(IsFlag, zeros, after);
  }

  function PastFlags(sp: Spec, tail: string): string {
    TakeWhile(IsFlag, Optional(sp.fill) + (Flags(sp) + (WidthText(sp.width) + tail))).1
  }

  lemma WidthLiteral(table: CharTable, sp: Spec, n: nat, tail: string)
    requires SpecOk(table, sp) && !ForeignFill(sp) && CountEnds(tail) && (n == 0 ==> Calm(tail))
    requires sp.width == Some(Literal(n))
    ensures ParseCount(PastFlags(sp, tail)) == ([], tail)
  {
    DecimalHead(n);
    if n == 0 {
      FlagsRead(table, sp, "0", tail);
      CountNothing(tail);
    } else {
      var width := Decimal(n) + tail;
      assert width == "" + width && width[0] == Decimal(n)[0];
      FlagsRead(table, sp, "", width);
      CountLiteral(n, tail);
    }
  }

  lemma WidthIndex(table: CharTable, sp: Spec, n: usize, tail: string)
    requires SpecOk(table, sp) && !ForeignFill(sp)
    requires sp.width == Some(IndexCount(n)) && n > 0
    ensures ParseCount(PastFlags(sp, tail)) == ([Use(Index(n), Measure)], tail)
  {
    DecimalHead(n);
    var width := Decimal(n) + ("$" + tail);
    assert WidthText(sp.width) + tail == "" + width && width[0] == Decimal(n)[0];
    FlagsRead(table, sp, "", width);
    CountIndex(n, tail);
  }

  lemma WidthNone(table: CharTable, sp: Spec, tail: string)
    requires SpecOk(table, sp) && !ForeignFill(sp) && Calm(tail)
    requires sp.width.None?
    ensures ParseCount(PastFlags(sp, tail)) == ([], tail)
  {
    FlagsRead(table, sp, "", tail);
    CountNothing(tail);
  }

  lemma WidthName(table: CharTable, sp: Spec, id: string, tail: string)
    requires table.AgreesWithAscii()
    requires SpecOk(table, sp) && (sp.fill.Some? ==> IsFlag(sp.fill.value))
    requires sp.width == Some(NameCount(id))
    ensures ParseCount(PastFlags(sp, tail)) == ([], id + ("$" + tail)) && (id + ("$" + tail))[0] != '.'
  {
    NameHead(table, id, "$" + tail);
    assert WidthText(sp.width) + tail == "" + (id + ("$" + tail));
    FlagsRead(table, sp, "", id + ("$" + tail));
    CountNothing(id + ("$" + tail));
  }

  /** The width is empty or a zero, which the flag loop takes. */
  predicate WidthIsFlags(sp: Spec) {
    sp.width.None? || sp.width == Some(Literal(0))
  }

  lemma WidthRead(table: CharTable, sp: Spec, tail: string)
    requires SpecOk(table, sp) && !ForeignFill(sp) && CountEnds(tail) && (WidthIsFlags(sp) ==> Calm(tail))
    requires !(sp.width.Some? && sp.width.value.NameCount?) && sp.width != Some(IndexCount(0))
    ensures ParseCount(PastFlags(sp, tail)) == (WidthUses(sp.width), tail)
  {
    hide PastFlags, ParseCount;
    match sp.width
    case None => WidthNone(table, sp, tail);
    case Some(Literal(n)) => WidthLiteral(table, sp, n, tail);
    case Some(IndexCount(n)) => WidthIndex(table, sp, n, tail);
  }

  lemma AfterDot(text: string)
    ensures ParsePrecision("." + text) == ParseCount(text)
  {
    assert ("." + text)[1..] == text;
  }

  lemma PrecisionStar(tail: string)
    ensures ParsePrecision(PrecisionText(Some(Star)) + tail) == ([], tail)
  {
    AfterDot("*" + tail);
    assert ".*" + tail == "." + ("*" + tail) && ("*" + tail)[1..] == tail;
  }

  lemma CountRead(c: Count, tail: string)
    requires CountEnds(tail) && !c.NameCount?
    ensures ParseCount(CountText(c) + tail) == (CountUses(c), tail)
  {
    match c
    case Literal(n) => CountLiteral(n, tail);
    case IndexCount(n) =>
      CountIndex(n, tail);
      assert CountText(c) + tail == Decimal(n) + ("$" + tail);
  }

  lemma DotFirst(text: string, tail: string)
    ensures ("." + text) + tail == "." + (text + tail)
  {
  }

  lemma PrecisionGiven(c: Count, tail: string)
    requires CountEnds(tail) && !c.NameCount?
    ensures ParsePrecision(PrecisionText(Some(Given(c))) + tail) == (CountUses(c), tail)
  {
    hide CountText, ParseCount, ParsePrecision, CountEnds, CountUses;
    CountRead(c, tail);
    DotFirst(CountText(c), tail);
    AfterDot(CountText(c) + tail);
  }

  /** A precision other than a name. */
  lemma PrecisionRead(p: Option<Precision>, tail: string)
    requires CountEnds(tail) && tail[0] != '.'
    requires !(p.Some? && p.value.Given? && p.value.count.NameCount?)
    ensures ParsePrecision(PrecisionText(p) + tail) == (if p == Some(Star) then [] else PrecisionUses(p), tail)
  {
    match p
    case None => assert PrecisionText(p) + tail == tail;
    case Some(Star) => PrecisionStar(tail);
    case Some(Given(c)) => PrecisionGiven(c, tail);
  }

  lemma PrecisionName(table: CharTable, id: string, tail: string)
    requires table.AgreesWithAscii() && IsIdent(table, id)
    ensures ParsePrecision(PrecisionText(Some(Given(NameCount(id)))) + tail) == ([], id + ("$" + tail))
  {
    NameHead(table, id, "$" + tail);
    CountNothing(id + ("$" + tail));
    hide ParseCount, ParsePrecision, IsIdent, Calm;
    DotFirst(id + "$", tail);
    assert (id + "$") + tail == id + ("$" + tail);
    AfterDot(id + ("$" + tail));
  }

  /** The spec parser, one part after another. */
  lemma SpecSteps(table: CharTable, sp: Spec, rest: string, s2: string, s3: string)
    requires ParseCount(PastFlags(sp, PrecisionText(sp.precision) + (TypeText(sp.ty) + rest))).1 == s2
    requires ParsePrecision(s2).1 == s3
    ensures var (uses, ty, after) := ParseSpec(table, SpecText(sp, rest));
            && uses == ParseCount(PastFlags(sp, PrecisionText(sp.precision) + (TypeText(sp.ty) + rest))).0
                       + ParsePrecision(s2).0 + ParseTail(table, s3).0
            && ty == ParseTail(table, s3).1 && after == ParseTail(table, s3).2
  {
    hide ParseCount, ParsePrecision, ParseTail, TakeWhile;
  }

  /** Counts and type are read. */
  ghost predicate ReadAs(table: CharTable, sp: Spec, rest: string) {
    ParseSpec(table, SpecText(sp, rest)) == (SeenCounts(sp), TypeRead(sp.ty, rest), AfterType(sp.ty, rest))
  }

  /** Nothing stands between the flags and the text that follows the spec. */
  predicate OnlyFlags(sp: Spec) {
    WidthIsFlags(sp) && sp.precision.None? && sp.ty.Plain?
  }

  lemma PrecisionAbsent(s: string)
    requires s != "" && s[0] != '.'
    ensures ParsePrecision(s) == ([], s)
  {
  }

  lemma SpecReadWidthName(table: CharTable, sp: Spec, rest: string)
    requires table.AgreesWithAscii() && Closes(table, rest) && SpecOk(table, sp) && !ForeignFill(sp)
    requires sp.width.Some? && sp.width.value.NameCount? && sp.precision.None?
    ensures ReadAs(table, sp, rest)
  {
    hide PastFlags, ParseCount, ParsePrecision, ParseTail, ParseSpec, SpecText, TypeText, IsIdent, TypeRead, AfterType, Closes;
    var id := sp.width.value.id;
    var tail := TypeText(sp.ty) + rest;
    var named := id + ("$" + tail);
    assert PrecisionText(sp.precision) + tail == tail;
    WidthName(table, sp, id, tail);
    TailOfName(table, id, sp.ty, rest);
    PrecisionAbsent(named);
    SpecSteps(table, sp, rest, named, named);
    assert ParseSpec(table, SpecText(sp, rest)).0 == SeenCounts(sp);
  }

  lemma SpecReadPrecisionName(table: CharTable, sp: Spec, id: string, rest: string)
    requires table.AgreesWithAscii() && Closes(table, rest) && SpecOk(table, sp) && !ForeignFill(sp)
    requires !(sp.width.Some? && sp.width.value.NameCount?) && sp.width != Some(IndexCount(0))
    requires sp.precision == Some(Given(NameCount(id)))
    ensures ReadAs(table, sp, rest)
  {
    hide PastFlags, ParseCount, ParsePrecision, ParseTail, ParseSpec, SpecText, TypeText, IsIdent, TypeRead, AfterType, Closes;
    var tail := TypeText(sp.ty) + rest;
    TypeHead(table, sp.ty, rest);
    PrecisionHead(sp.precision, tail);
    WidthRead(table, sp, PrecisionText(sp.precision) + tail);
    PrecisionName(table, id, tail);
    TailOfName(table, id, sp.ty, rest);
    hide Calm, CountEnds;
    SpecSteps(table, sp, rest, PrecisionText(sp.precision) + tail, id + ("$" + tail));
    assert ParseSpec(table, SpecText(sp, rest)).0 == SeenCounts(sp);
  }

  lemma SpecReadPlain(table: CharTable, sp: Spec, rest: string)
    requires table.AgreesWithAscii() && Closes(table, rest) && SpecOk(table, sp) && !ForeignFill(sp)
    requires OnlyFlags(sp) ==> rest[0] != ' '
    requires !(sp.width.Some? && sp.width.value.NameCount?) && sp.width != Some(IndexCount(0))
    requires !(sp.precision.Some? && sp.precision.value.Given? && sp.precision.value.count.NameCount?)
    ensures ReadAs(table, sp, rest)
  {
    hide PastFlags, ParseCount, ParsePrecision, ParseTail, ParseSpec, SpecText, TypeText, IsIdent, TypeRead, AfterType;
    var tail := TypeText(sp.ty) + rest;
    TypeHead(table, sp.ty, rest);
    PrecisionHead(sp.precision, tail);
    WidthRead(table, sp, PrecisionText(sp.precision) + tail);
    PrecisionRead(sp.precision, tail);
    TailOfType(table, sp.ty, rest);
    hide Calm, CountEnds, Closes;
    SpecSteps(table, sp, rest, PrecisionText(sp.precision) + tail, tail);
    assert ParseSpec(table, SpecText(sp, rest)).0 == SeenCounts(sp);
  }

  lemma SpecRead(table: CharTable, sp: Spec, rest: string)
    requires table.AgreesWithAscii() && Closes(table, rest) && SpecOk(table, sp)
    requires OnlyFlags(sp) ==> rest[0] != ' '
    requires !ForeignFill(sp) && sp.width != Some(IndexCount(0)) && !NamedThenPrecision(sp)
    ensures ReadAs(table, sp, rest)
  {
    hide ReadAs;
    if sp.width.Some? && sp.width.value.NameCount? {
      SpecReadWidthName(table, sp, rest);
    } else if sp.precision.Some? && sp.precision.value.Given? && sp.precision.value.count.NameCount? {
      SpecReadPrecisionName(table, sp, sp.precision.value.count.id, rest);
    } else {
      SpecReadPlain(table, sp, rest);
    }
  }

  lemma SameBehindFlags(table: CharTable, a: string, b: string)
    requires TakeWhile(IsFlag, a).1 == TakeWhile(IsFlag, b).1
    ensures ParseSpec(table, a) == ParseSpec(table, b)
  {
    hide ParseCount, ParsePrecision, ParseTail, TakeWhile;
  }

  /** White space right behind the flags is taken for more of them. */
  lemma SpaceTaken(table: CharTable, sp: Spec, rest: string)
    requires SpecOk(table, sp) && !ForeignFill(sp) && OnlyFlags(sp)
    ensures ParseSpec(table, SpecText(sp, " " + rest)) == ParseSpec(table, SpecText(sp, rest))
  {
    var flags := Optional(sp.fill) + (Flags(sp) + WidthText(sp.width));
    AllFlags(table, sp);
    OnlyFlagsText(sp, rest);
    OnlyFlagsText(sp, " " + rest);
    hide SpecText, TakeWhile, Flags, WidthText, ParseSpec, SpecOk, OnlyFlags;
    TakeWhileThrough(IsFlag, flags, rest);
    TakeWhileThrough(IsFlag, flags, " " + rest);
    TakeWhileThrough(IsFlag, " ", rest);
    SameBehindFlags(table, SpecText(sp, " " + rest), SpecText(sp, rest));
  }

  lemma AllFlags(table: CharTable, sp: Spec)
    requires SpecOk(table, sp) && !ForeignFill(sp) && OnlyFlags(sp)
    ensures var flags := Optional(sp.fill) + (Flags(sp) + WidthText(sp.width));
            forall i :: 0 <= i < |flags| ==> IsFlag(flags[i])
  {
    FlagsAreFlags(table, sp);
    DecimalHead(0);
    hide Flags;
  }

  lemma OnlyFlagsText(sp: Spec, rest: string)
    requires OnlyFlags(sp)
    ensures SpecText(sp, rest) == (Optional(sp.fill) + (Flags(sp) + WidthText(sp.width))) + rest
  {
    hide Flags, WidthText;
    assert PrecisionText(sp.precision) + (TypeText(sp.ty) + rest) == rest;
  }

  lemma {:induction false} TakeWhileThrough(p: char -> bool, a: string, b: string)
    requires forall i :: 0 <= i < |a| ==> p(a[i])
    ensures TakeWhile(p, a + b).1 == TakeWhile(p, b).1
    decreases |a|
  {
    if a == "" {
      assert a + b == b;
    } else {
      TakeWhileThrough(p, a[1..], b);
      assert (a + b)[1..] == a[1..] + b && (a + b)[0] == a[0];
    }
  }

  // ---------------------------------------------------------------------------------------------
  // Text left over

  /** Text that the analyser skips as literal. */
  ghost predicate NoOpen(s: string) {
    forall i :: 0 <= i < |s| ==> s[i] != '{'
  }

  lemma {:induction false} LeftOverSkipped(table: CharTable, left: string, rest: string)
    requires NoOpen(left)
    ensures ParseTemplate(table, left + rest) == ParseTemplate(table, rest)
    decreases |left|
  {
    if left == "" {
      assert left + rest == rest;
    } else {
      LeftOverSkipped(table, left[1..], rest);
      assert (left + rest)[1..] == left[1..] + rest && (left + rest)[0] == left[0];
    }
  }

  lemma DropLeft(left: string, rest: string)
    requires left != "" && NoOpen(left)
    ensures Drop1(left + rest) == left[1..] + rest && NoOpen(left[1..])
  {
  }

  lemma DropTwo(left: string, rest: string)
    requires |left| >= 2 && NoOpen(left)
    ensures Drop1((left + rest)[1..]) == left[1..][1..] + rest && NoOpen(left[1..][1..])
  {
    assert (left + rest)[1..] == left[1..] + rest;
    DropLeft(left, rest);
    DropLeft(left[1..], rest);
  }

  lemma NoOpenConcat(a: string, b: string)
    requires NoOpen(a) && NoOpen(b)
    ensures NoOpen(a + b)
  {
  }

  lemma AfterBrace(s: string)
    ensures Drop1("}" + s) == s
  {
    assert ("}" + s)[1..] == s;
  }

  lemma DropBrace(c: char, left: string, rest: string)
    requires c != '{' && NoOpen(left)
    ensures Drop1("}" + ([c] + (left + rest))) == ([c] + left) + rest && NoOpen([c] + left)
  {
    AfterBrace([c] + (left + rest));
    assert NoOpen([c]);
    NoOpenConcat([c], left);
    hide NoOpen, Drop1;
    assert [c] + (left + rest) == ([c] + left) + rest;
  }

  lemma CountNoOpen(table: CharTable, c: Count)
    requires table.AgreesWithAscii() && CountOk(table, c)
    ensures NoOpen(CountText(c))
  {
    match c
    case Literal(n) => DigitsNoOpen(n);
    case IndexCount(n) => DigitsNoOpen(n);
    case NameCount(id) =>
      assert forall i :: 0 <= i < |id| ==> table.IdentPart(id[i]);
  }

  lemma DigitsNoOpen(n: nat)
    ensures NoOpen(Decimal(n))
  {
  }

  lemma WidthNoOpen(table: CharTable, sp: Spec)
    requires table.AgreesWithAscii() && SpecOk(table, sp)
    ensures NoOpen(WidthText(sp.width))
  {
    if sp.width.Some? {
      CountNoOpen(table, sp.width.value);
    }
  }

  lemma PrecisionNoOpen(table: CharTable, sp: Spec)
    requires table.AgreesWithAscii() && SpecOk(table, sp)
    ensures NoOpen(PrecisionText(sp.precision))
  {
    if sp.precision.Some? && sp.precision.value.Given? {
      CountNoOpen(table, sp.precision.value.count);
      hide CountText;
    }
  }

  lemma TypeNoOpen(table: CharTable, sp: Spec)
    requires table.AgreesWithAscii() && SpecOk(table, sp)
    ensures NoOpen(TypeText(sp.ty))
  {
  }

  /** Precision, type, white space and closing brace. */
  function Ending(sp: Spec, space: string): string {
    PrecisionText(sp.precision) + (TypeText(sp.ty) + (space + "}"))
  }

  lemma BlankNoOpen(table: CharTable, space: string)
    requires table.AgreesWithAscii() && Blank(table, space)
    ensures NoOpen(space + "}")
  {
    assert !table.space('{');
  }

  lemma AssocFour(a: string, b: string, c: string, d: string, e: string)
    ensures a + (b + (c + (d + e))) == (a + (b + (c + d))) + e
  {
  }

  lemma EndingText(table: CharTable, sp: Spec, space: string, rest: string)
    requires table.AgreesWithAscii() && SpecOk(table, sp) && Blank(table, space)
    ensures PrecisionText(sp.precision) + (TypeText(sp.ty) + (space + ("}" + rest))) == Ending(sp, space) + rest
    ensures Ending(sp, space) != "" && NoOpen(Ending(sp, space))
    ensures sp.precision.Some? ==> |Ending(sp, space)| >= 2 && Ending(sp, space)[0] == '.'
  {
    PrecisionNoOpen(table, sp);
    TypeNoOpen(table, sp);
    BlankNoOpen(table, space);
    PrecisionLength(sp.precision);
    hide PrecisionText, TypeText, NoOpen, Blank;
    NoOpenConcat(TypeText(sp.ty), space + "}");
    NoOpenConcat(PrecisionText(sp.precision), TypeText(sp.ty) + (space + "}"));
    AssocFour(PrecisionText(sp.precision), TypeText(sp.ty), space, "}", rest);
  }

  lemma PrecisionLength(p: Option<Precision>)
    ensures p.Some? ==> |PrecisionText(p)| >= 2 && PrecisionText(p)[0] == '.'
  {
    if p.Some? && p.value.Given? {
      CountTextNotEmpty(p.value.count);
    }
  }

  lemma CountTextNotEmpty(c: Count)
    ensures CountText(c) != ""
  {
  }

  /** Sign, `#` and `0`. */
  function SignFlags(sp: Spec): string {
    Optional(sp.sign) + (if sp.alternate then "#" else "") + (if sp.zero then "0" else "")
  }

  /** The text of a spec after fill and alignment, with its closing brace. */
  function AfterAlign(sp: Spec, space: string): string {
    SignFlags(sp) + (WidthText(sp.width) + Ending(sp, space))
  }

  lemma AfterAlignNoOpen(table: CharTable, sp: Spec, space: string)
    requires table.AgreesWithAscii() && SpecOk(table, sp) && Blank(table, space)
    ensures AfterAlign(sp, space) != "" && NoOpen(AfterAlign(sp, space))
  {
    EndingText(table, sp, space, "");
    WidthNoOpen(table, sp);
    assert NoOpen(SignFlags(sp));
    hide WidthText, Ending, SignFlags, NoOpen;
    NoOpenConcat(WidthText(sp.width), Ending(sp, space));
    NoOpenConcat(SignFlags(sp), WidthText(sp.width) + Ending(sp, space));
  }

  lemma AssocSix(fill: string, align: string, signs: string, width: string, ending: string, rest: string)
    ensures fill + ((align + signs) + (width + (ending + rest))) == fill + (align + ((signs + (width + ending)) + rest))
  {
  }

  lemma FlagsText(sp: Spec)
    requires sp.align.Some?
    ensures Flags(sp) == [sp.align.value] + SignFlags(sp)
  {
  }

  lemma AfterAlignText(table: CharTable, sp: Spec, space: string, rest: string)
    requires table.AgreesWithAscii() && SpecOk(table, sp) && Blank(table, space) && sp.fill.Some?
    ensures SpecText(sp, space + ("}" + rest)) == [sp.fill.value] + ([sp.align.value] + (AfterAlign(sp, space) + rest))
  {
    EndingText(table, sp, space, rest);
    FlagsText(sp);
    hide WidthText, PrecisionText, TypeText, Ending, SignFlags, Flags, NoOpen;
    AssocSix([sp.fill.value], [sp.align.value], SignFlags(sp), WidthText(sp.width), Ending(sp, space), rest);
  }

  // ---------------------------------------------------------------------------------------------
  // How the other specs are read

  lemma AlignIsNoCount(table: CharTable, align: char, after: string)
    requires table.AgreesWithAscii() && align in "<^>"
    ensures ParseCount([align] + after) == ([], [align] + after)
    ensures ParsePrecision([align] + after) == ([], [align] + after)
    ensures ParseTail(table, [align] + after) == ([], Some(align), after)
  {
    assert ([align] + after)[1..] == after;
  }

  lemma CountSwallows(f: char, align: char, after: string)
    requires align in "<^>" && !IsFlag(f) && (f == '*' || IsDigit(f))
    ensures ParseCount([f] + ([align] + after)) == ([], [align] + after)
  {
    var s1 := [align] + after;
    assert ([f] + s1)[1..] == s1;
    if IsDigit(f) {
      TakeWhileExact(IsDigit, [f], s1);
    }
  }

  lemma NoUses()
    ensures forall u: seq<Use> :: [] + [] + u == u
  {
  }

  /** A fill that a count swallows: the alignment is then taken for the type. */
  lemma SwallowedFill(table: CharTable, f: char, align: char, after: string)
    requires table.AgreesWithAscii() && align in "<^>" && !IsFlag(f) && (f in "*." || IsDigit(f))
    ensures ParseSpec(table, [f] + ([align] + after)) == ([], Some(align), after)
  {
    var s1 := [align] + after;
    var s := [f] + s1;
    assert TakeWhile(IsFlag, s) == ("", s);
    AlignIsNoCount(table, align, after);
    if f == '.' {
      AfterDot(s1);
      CountNothing(s);
    } else {
      CountSwallows(f, align, after);
    }
    hide ParseCount, ParsePrecision, ParseTail;
    NoUses();
  }

  /** Any other fill is taken for the type, except that a closing brace ends the placeholder. */
  lemma FillAsType(table: CharTable, f: char, align: char, after: string)
    requires table.AgreesWithAscii() && align in "<^>" && !IsFlag(f) && !(f in "*." || IsDigit(f))
    ensures var s1 := [align] + after;
            ParseSpec(table, [f] + s1) == if f == '}' then ([], None, [f] + s1) else ([], Some(f), s1)
  {
    var s1 := [align] + after;
    var s := [f] + s1;
    assert s[1..] == s1;
    assert TakeWhile(IsFlag, s) == ("", s);
    CountNothing(s);
    PrecisionAbsent(s);
    assert ParseTail(table, s) == if f == '}' then ([], None, s) else ([], Some(f), s1) by {
      if table.IdentStart(f) {
        TakeWhileExact(c => table.IdentPart(c), [f], s1);
      }
    }
    hide ParseCount, ParsePrecision, ParseTail;
    NoUses();
  }

  /** The width reference `0$`: its zero is taken for a flag and its `$` for the type. */
  lemma ZeroReference(table: CharTable, sp: Spec, rest: string)
    requires table.AgreesWithAscii() && SpecOk(table, sp) && !ForeignFill(sp)
    requires sp.width == Some(IndexCount(0))
    ensures ParseSpec(table, SpecText(sp, rest)) == ([], Some('$'), PrecisionText(sp.precision) + (TypeText(sp.ty) + rest))
  {
    var after := PrecisionText(sp.precision) + (TypeText(sp.ty) + rest);
    var s := "$" + after;
    DecimalHead(0);
    assert WidthText(sp.width) + after == "0" + s;
    FlagsRead(table, sp, "0", s);
    CountNothing(s);
    PrecisionAbsent(s);
    assert ParseTail(table, s) == ([], Some('$'), after) by {
      assert s[0] == '$' && s[1..] == after;
    }
    hide ParseCount, ParsePrecision, ParseTail, Flags, PrecisionText, TypeText;
    NoUses();
  }

  /** A named width followed by a precision: the dot is taken for the type. */
  lemma NamedWidthThenPrecision(table: CharTable, sp: Spec, rest: string)
    requires table.AgreesWithAscii() && SpecOk(table, sp) && !ForeignFill(sp) && NamedThenPrecision(sp)
    ensures var tail := PrecisionText(sp.precision) + (TypeText(sp.ty) + rest);
            tail != "" && ParseSpec(table, SpecText(sp, rest)) == (WidthUses(sp.width), Some('.'), tail[1..])
  {
    var id := sp.width.value.id;
    var tail := PrecisionText(sp.precision) + (TypeText(sp.ty) + rest);
    var named := id + ("$" + tail);
    PrecisionLength(sp.precision);
    assert tail[0] == PrecisionText(sp.precision)[0];
    WidthName(table, sp, id, tail);
    PrecisionAbsent(named);
    NamedTail(table, id, tail);
    hide PastFlags, ParseCount, ParsePrecision, ParseTail, TypeText, IsIdent, PrecisionText;
    SpecSteps(table, sp, rest, named, named);
    NoUses();
  }

  lemma NamedTail(table: CharTable, id: string, tail: string)
    requires table.AgreesWithAscii() && IsIdent(table, id) && tail != "" && tail[0] == '.'
    ensures ParseTail(table, id + ("$" + tail)) == ([Use(Name(id), Measure)], Some('.'), tail[1..])
  {
    TakeWhileExact(c => table.IdentPart(c), id, "$" + tail);
    assert (id + ("$" + tail))[0] == id[0];
    assert ("$" + tail)[1..] == tail;
  }

  // ---------------------------------------------------------------------------------------------
  // What is recorded for a placeholder

  /** The parser, started after a placeholder's opening brace, records `HoleReading` and stops where
      only text without an opening brace is left of the placeholder. */
  ghost predicate Reads(table: CharTable, h: Hole, rest: string, left: string) {
    NoOpen(left) && ParseHole(table, HoleText(h, rest)) == (HoleReading(h), left + rest)
  }

  lemma ArgRead(table: CharTable, a: Arg, after: string)
    requires table.AgreesWithAscii() && (a.NameArg? ==> IsIdent(table, a.id))
    requires after != "" && (after[0] == ':' || Closes(table, after))
    ensures ParseArg(table, ArgText(a) + after) == (ArgSlot(a), after)
  {
    if after[0] != ':' {
      SpaceStops(table, after);
    }
    match a
    case NoArg =>
      assert ArgText(a) + after == after;
      assert TakeWhile(c => table.IdentPart(c), after) == ("", after);
    case IndexArg(n) =>
      NumberReadsBack(n, after);
      assert IsDigit((Decimal(n) + after)[0]);
    case NameArg(id) =>
      IdentStartCalm(table, id[0], "");
      assert (id + after)[0] == id[0];
      TakeWhileExact(c => table.IdentPart(c), id, after);
  }

  lemma HoleSteps(table: CharTable, h: Hole, sp: Spec, rest: string)
    requires table.AgreesWithAscii() && HoleOk(table, h) && h.spec == Some(sp)
    ensures var (uses, ty, after) := ParseSpec(table, SpecText(sp, h.space + ("}" + rest)));
            ParseHole(table, HoleText(h, rest)) == (uses + [Use(ArgSlot(h.arg), KindOf(ty))], Drop1(after))
  {
    var text := SpecText(sp, h.space + ("}" + rest));
    hide SpecText, ParseSpec, ParseArg, ArgText, Blank;
    ArgRead(table, h.arg, ":" + text);
    assert (":" + text)[1..] == text;
  }

  /** White space, if any, and the brace. */
  lemma ClosingText(table: CharTable, space: string, rest: string)
    requires table.AgreesWithAscii() && Blank(table, space)
    ensures Closes(table, space + ("}" + rest))
    ensures space + ("}" + rest) == (space + "}") + rest && NoOpen(space + "}")
  {
    BlankNoOpen(table, space);
  }

  lemma BareHole(table: CharTable, h: Hole, rest: string)
    requires table.AgreesWithAscii() && HoleOk(table, h) && h.spec.None?
    ensures Reads(table, h, rest, (h.space + "}")[1..])
  {
    var close := h.space + ("}" + rest);
    ClosingText(table, h.space, rest);
    ArgRead(table, h.arg, close);
    SpaceStops(table, close);
    DropLeft(h.space + "}", rest);
    hide ParseArg, ArgText, ParseSpec, Drop1, NoOpen, Closes, Blank;
    assert HoleText(h, rest) == ArgText(h.arg) + close;
    assert KindOf(None) == Display;
    OneUse(Use(ArgSlot(h.arg), Display));
  }

  lemma OneUse(u: Use)
    ensures [] + [u] == [u]
  {
  }

  /** A placeholder with a spec, once the spec parser's result is known. */
  lemma SpecHole(table: CharTable, h: Hole, sp: Spec, rest: string, ty: Option<char>, after: string, left: string)
    requires table.AgreesWithAscii() && HoleOk(table, h) && h.spec == Some(sp)
    requires ParseSpec(table, SpecText(sp, h.space + ("}" + rest))) == (ReadCounts(sp), ty, after)
    requires KindOf(ty) == ReadKind(sp) && Drop1(after) == left + rest && NoOpen(left)
    ensures Reads(table, h, rest, left)
  {
    HoleSteps(table, h, sp, rest);
    hide SpecText, ParseSpec, ParseHole, HoleText, ReadCounts, ReadKind, KindOf, Drop1, NoOpen, HoleOk;
  }

  /** The white space that the flag loop leaves. */
  function SpaceLeft(sp: Spec, space: string): string {
    if OnlyFlags(sp) && space != "" && space[0] == ' ' then SpaceLeft(sp, space[1..]) else space
  }

  lemma {:induction false} SpacesTaken(table: CharTable, sp: Spec, space: string, rest: string)
    requires SpecOk(table, sp) && !ForeignFill(sp) && Blank(table, space)
    ensures var space' := SpaceLeft(sp, space);
            && Blank(table, space')
            && (OnlyFlags(sp) && space' != "" ==> space'[0] != ' ')
            && ParseSpec(table, SpecText(sp, space + ("}" + rest))) == ParseSpec(table, SpecText(sp, space' + ("}" + rest)))
    decreases |space|
  {
    hide ParseSpec, SpecText, SpecOk, ForeignFill;
    if OnlyFlags(sp) && space != "" && space[0] == ' ' {
      SpacesTaken(table, sp, space[1..], rest);
      SpaceTaken(table, sp, space[1..] + ("}" + rest));
      assert space + ("}" + rest) == " " + (space[1..] + ("}" + rest));
    }
  }

  /** What is left behind the type and one more character. */
  function LeftAfterType(ty: Type, space: string): string {
    var close := space + "}";
    if ty.HexQuestion? then close
    else if ty.Plain? && space != "" then close[1..][1..]
    else close[1..]
  }

  lemma LeftAfterTypeText(table: CharTable, ty: Type, space: string, rest: string)
    requires table.AgreesWithAscii() && Blank(table, space)
    ensures Drop1(AfterType(ty, space + ("}" + rest))) == LeftAfterType(ty, space) + rest && NoOpen(LeftAfterType(ty, space))
    ensures KindOf(TypeRead(ty, space + ("}" + rest))) == KindOf(TypeChar(ty))
  {
    var close := space + "}";
    var text := space + ("}" + rest);
    ClosingText(table, space, rest);
    SpaceStops(table, text);
    if ty.HexQuestion? {
      assert ("?" + text)[1..] == text;
    } else if ty.Plain? && space != "" {
      assert text[0] == space[0] && table.space(space[0]);
      BlankKind(table, space[0]);
      DropTwo(close, rest);
    } else {
      if space == "" {
        assert text[0] == '}';
      }
      DropLeft(close, rest);
    }
  }

  lemma BlankKind(table: CharTable, c: char)
    requires table.AgreesWithAscii() && table.space(c)
    ensures KindOf(Some(c)) == Display && c != '}'
  {
    assert c < 128 as char || c !in "?xXeE}";
  }

  lemma RegularHole(table: CharTable, h: Hole, sp: Spec, rest: string)
    requires table.AgreesWithAscii() && HoleOk(table, h) && h.spec == Some(sp)
    requires !ForeignFill(sp) && sp.width != Some(IndexCount(0)) && !NamedThenPrecision(sp)
    ensures Reads(table, h, rest, LeftAfterType(sp.ty, SpaceLeft(sp, h.space)))
  {
    hide SpecText, ParseSpec, SeenCounts, KindOf, TypeChar, Reads, TypeRead, AfterType, LeftAfterType, Closes, NoOpen, Drop1;
    var space := SpaceLeft(sp, h.space);
    var text := space + ("}" + rest);
    SpacesTaken(table, sp, h.space, rest);
    ClosingText(table, space, rest);
    assert OnlyFlags(sp) ==> text[0] != ' ';
    hide Blank, SpaceLeft, OnlyFlags;
    SpecRead(table, sp, text);
    LeftAfterTypeText(table, sp.ty, space, rest);
    SpecHole(table, h, sp, rest, TypeRead(sp.ty, text), AfterType(sp.ty, text), LeftAfterType(sp.ty, space));
  }

  lemma MarkKinds()
    ensures KindOf(Some('$')) == Display && KindOf(Some('.')) == Display
  {
  }

  lemma ZeroHole(table: CharTable, h: Hole, sp: Spec, rest: string)
    requires table.AgreesWithAscii() && HoleOk(table, h) && h.spec == Some(sp)
    requires !ForeignFill(sp) && sp.width == Some(IndexCount(0))
    ensures Ending(sp, h.space) != "" && Reads(table, h, rest, Ending(sp, h.space)[1..])
  {
    ZeroReference(table, sp, h.space + ("}" + rest));
    EndingText(table, sp, h.space, rest);
    MarkKinds();
    hide SpecText, ParseSpec, Ending, PrecisionText, TypeText, Drop1, NoOpen, Reads, KindOf, HoleOk, IsFlag, Counts, TypeChar;
    DropLeft(Ending(sp, h.space), rest);
    SpecHole(table, h, sp, rest, Some('$'), Ending(sp, h.space) + rest, Ending(sp, h.space)[1..]);
  }

  lemma NamedHole(table: CharTable, h: Hole, sp: Spec, rest: string)
    requires table.AgreesWithAscii() && HoleOk(table, h) && h.spec == Some(sp)
    requires !ForeignFill(sp) && NamedThenPrecision(sp)
    ensures |Ending(sp, h.space)| >= 2 && Reads(table, h, rest, Ending(sp, h.space)[1..][1..])
  {
    NamedWidthThenPrecision(table, sp, h.space + ("}" + rest));
    EndingText(table, sp, h.space, rest);
    MarkKinds();
    hide SpecText, ParseSpec, Ending, PrecisionText, TypeText, Drop1, NoOpen, Reads, WidthUses, KindOf, HoleOk, IsFlag, Counts, TypeChar;
    var ending := Ending(sp, h.space);
    DropTwo(ending, rest);
    SpecHole(table, h, sp, rest, Some('.'), (ending + rest)[1..], ending[1..][1..]);
  }

  lemma SwallowedHole(table: CharTable, h: Hole, sp: Spec, rest: string)
    requires table.AgreesWithAscii() && HoleOk(table, h) && h.spec == Some(sp) && ForeignFill(sp)
    requires sp.fill.value in "*." || IsDigit(sp.fill.value)
    ensures AfterAlign(sp, h.space) != "" && Reads(table, h, rest, AfterAlign(sp, h.space)[1..])
  {
    var after := AfterAlign(sp, h.space);
    AfterAlignNoOpen(table, sp, h.space);
    AfterAlignText(table, sp, h.space, rest);
    SwallowedFill(table, sp.fill.value, sp.align.value, after + rest);
    FillKinds(sp);
    hide SpecText, ParseSpec, AfterAlign, Drop1, NoOpen, Reads, KindOf;
    DropLeft(after, rest);
    SpecHole(table, h, sp, rest, sp.align, after + rest, after[1..]);
  }

  lemma FillKinds(sp: Spec)
    ensures sp.align.Some? && sp.align.value in "<^>" ==> KindOf(sp.align) == Display
    ensures sp.fill.Some? && (sp.fill.value in "*.}" || IsDigit(sp.fill.value)) ==> KindOf(sp.fill) == Display
  {
  }

  lemma ClosingFillHole(table: CharTable, h: Hole, sp: Spec, rest: string)
    requires table.AgreesWithAscii() && HoleOk(table, h) && h.spec == Some(sp) && sp.fill == Some('}')
    ensures Reads(table, h, rest, [sp.align.value] + AfterAlign(sp, h.space))
  {
    var text := AfterAlign(sp, h.space);
    AfterAlignNoOpen(table, sp, h.space);
    AfterAlignText(table, sp, h.space, rest);
    FillAsType(table, '}', sp.align.value, text + rest);
    FillKinds(sp);
    DropBrace(sp.align.value, text, rest);
    var after := [sp.align.value] + (text + rest);
    hide SpecText, ParseSpec, AfterAlign, NoOpen, Reads, KindOf, Drop1, HoleOk, Counts, TypeChar;
    SpecHole(table, h, sp, rest, None, "}" + after, [sp.align.value] + text);
  }

  lemma TypeFillHole(table: CharTable, h: Hole, sp: Spec, rest: string)
    requires table.AgreesWithAscii() && HoleOk(table, h) && h.spec == Some(sp) && ForeignFill(sp)
    requires !(sp.fill.value in "*.}" || IsDigit(sp.fill.value))
    ensures Reads(table, h, rest, AfterAlign(sp, h.space))
  {
    var text := AfterAlign(sp, h.space);
    AfterAlignNoOpen(table, sp, h.space);
    AfterAlignText(table, sp, h.space, rest);
    FillAsType(table, sp.fill.value, sp.align.value, text + rest);
    hide SpecText, ParseSpec, AfterAlign, NoOpen, Reads, KindOf;
    var after := [sp.align.value] + (text + rest);
    assert after[1..] == text + rest;
    SpecHole(table, h, sp, rest, sp.fill, after, text);
  }

  /** What the analyser records for any placeholder of the grammar, and that it goes on behind it. */
  lemma HoleIsRead(table: CharTable, h: Hole, rest: string)
    requires table.AgreesWithAscii() && HoleOk(table, h)
    ensures var (uses, after) := ParseHole(table, HoleText(h, rest));
            uses == HoleReading(h) && ParseTemplate(table, after) == ParseTemplate(table, rest)
  {
    hide Reads, ParseHole, ParseTemplate, HoleText, AfterAlign, Ending, HoleReading;
    var left := "";
    match h.spec {
      case None =>
        BareHole(table, h, rest);
        left := (h.space + "}")[1..];
      case Some(sp) =>
        if ForeignFill(sp) {
          if sp.fill == Some('}') {
            ClosingFillHole(table, h, sp, rest);
            left := [sp.align.value] + AfterAlign(sp, h.space);
          } else if sp.fill.value in "*." || IsDigit(sp.fill.value) {
            SwallowedHole(table, h, sp, rest);
            left := AfterAlign(sp, h.space)[1..];
          } else {
            TypeFillHole(table, h, sp, rest);
            left := AfterAlign(sp, h.space);
          }
        } else if sp.width == Some(IndexCount(0)) {
          ZeroHole(table, h, sp, rest);
          left := Ending(sp, h.space)[1..];
        } else if NamedThenPrecision(sp) {
          NamedHole(table, h, sp, rest);
          left := Ending(sp, h.space)[1..][1..];
        } else {
          RegularHole(table, h, sp, rest);
          left := LeftAfterType(sp.ty, SpaceLeft(sp, h.space));
        }
    }
    ReadsThenSkips(table, h, rest, left);
  }

  lemma ReadsThenSkips(table: CharTable, h: Hole, rest: string, left: string)
    requires Reads(table, h, rest, left)
    ensures var (uses, after) := ParseHole(table, HoleText(h, rest));
            uses == HoleReading(h) && ParseTemplate(table, after) == ParseTemplate(table, rest)
  {
    hide ParseHole, HoleText, HoleReading;
    LeftOverSkipped(table, left, rest);
  }

  // ---------------------------------------------------------------------------------------------
  // Which placeholders are recorded rightly

  lemma TypeKindRead(ty: Type)
    ensures !ty.HexQuestion? ==> KindOf(TypeChar(ty)) == TypeKind(ty)
    ensures ty.HexQuestion? && ty.hex in "xX" ==> KindOf(TypeChar(ty)) != TypeKind(ty)
  {
  }

  /** The recorded uses are the placeholder's own exactly when it is one of the understood ones. */
  lemma UsesRightIff(table: CharTable, h: Hole)
    requires HoleOk(table, h)
    ensures HoleReading(h) == HoleUses(h) <==> HoleUnderstood(h)
  {
    if h.spec.Some? {
      var sp := h.spec.value;
      var own := ArgSlot(h.arg);
      TypeKindRead(sp.ty);
      assert HoleUses(h) == Counts(sp) + [Use(own, TypeKind(sp.ty))];
      LastUse(ReadCounts(sp), Use(own, ReadKind(sp)), Counts(sp), Use(own, TypeKind(sp.ty)));
      hide HoleReading, HoleUses, TypeKind, KindOf;
    }
  }

  lemma LastUse(us: seq<Use>, u: Use, vs: seq<Use>, v: Use)
    ensures us + [u] == vs + [v] <==> us == vs && u == v
  {
    if us + [u] == vs + [v] {
      assert (us + [u])[..|us|] == us && (vs + [v])[..|vs|] == vs;
      assert (us + [u])[|us|] == u && (vs + [v])[|vs|] == v;
    }
  }

  /** A placeholder of the grammar, wherever it stands, is recorded exactly when it is understood. */
  lemma ReadBackIff(table: CharTable, h: Hole, rest: string)
    requires table.AgreesWithAscii() && HoleOk(table, h)
    ensures ParseTemplate(table, "{" + HoleText(h, rest)) == HoleUses(h) + ParseTemplate(table, rest) <==> HoleUnderstood(h)
  {
    HoleInTemplate(table, h, rest);
    UsesRightIff(table, h);
    var t := ParseTemplate(table, rest);
    hide ParseTemplate, HoleText, HoleReading, HoleUses, HoleUnderstood, HoleOk;
    if HoleReading(h) + t == HoleUses(h) + t {
      SameFront(HoleReading(h), HoleUses(h), t);
    }
  }

  lemma SameFront<T>(a: seq<T>, b: seq<T>, t: seq<T>)
    requires a + t == b + t
    ensures a == b
  {
    assert |a + t| == |a| + |t| && |b + t| == |b| + |t|;
    assert a == (a + t)[..|a|] && b == (b + t)[..|b|];
  }

  lemma HoleInTemplate(table: CharTable, h: Hole, rest: string)
    requires table.AgreesWithAscii() && HoleOk(table, h)
    ensures ParseTemplate(table, "{" + HoleText(h, rest)) == HoleReading(h) + ParseTemplate(table, rest)
  {
    var text := HoleText(h, rest);
    HoleTextHead(table, h, rest);
    HoleIsRead(table, h, rest);
    hide HoleText, ParseHole, HoleReading;
    assert ("{" + text)[1..] == text;
  }

  const BARE: Spec := Spec(None, None, None, false, false, None, None, Plain)

  lemma Alone(table: CharTable, sp: Spec, text: string)
    requires table.AgreesWithAscii() && SpecOk(table, sp) && text == "{" + (":" + SpecText(sp, "}"))
    ensures ParseTemplate(table, text) == HoleReading(Hole(NoArg, Some(sp), ""))
  {
    var h := Hole(NoArg, Some(sp), "");
    HoleInTemplate(table, h, "");
    hide SpecText, SpecOk, HoleReading;
    assert ParseTemplate(table, "") == [];
    assert "" + ("}" + "") == "}" && "" + (":" + SpecText(sp, "}")) == ":" + SpecText(sp, "}");
    assert HoleText(h, "") == ":" + SpecText(sp, "}");
    hide ParseTemplate;
    assert HoleReading(h) + [] == HoleReading(h);
  }

  /** A debug-hex type is taken for a hex type. */
  lemma HexDebugMisread(table: CharTable)
    requires table.AgreesWithAscii()
    ensures ParseTemplate(table, "{:x?}") == [Use(NextArg, LowerHex)]
  {
    hide ParseTemplate;
    Alone(table, BARE.(ty := HexQuestion('x')), "{:x?}");
  }

  /** A width reference to argument 0 is not seen. */
  lemma ZeroReferenceMisread(table: CharTable)
    requires table.AgreesWithAscii()
    ensures ParseTemplate(table, "{:0$}") == [Use(NextArg, Display)]
  {
    hide ParseTemplate;
    assert Decimal(0) == "0";
    Alone(table, BARE.(width := Some(IndexCount(0))), "{:0$}");
  }

  /** Nor is a precision argument after a named width. */
  lemma NamedWidthMisread(table: CharTable)
    requires table.AgreesWithAscii()
    ensures ParseTemplate(table, "{:w$.p$}") == [Use(Name("w"), Measure), Use(NextArg, Display)]
  {
    hide ParseTemplate;
    Alone(table, BARE.(width := Some(NameCount("w")), precision := Some(Given(NameCount("p")))), "{:w$.p$}");
  }

  /** A letter as fill is taken for the type. */
  lemma LetterFillMisread(table: CharTable)
    requires table.AgreesWithAscii()
    ensures ParseTemplate(table, "{:x<5}") == [Use(NextArg, LowerHex)]
  {
    hide ParseTemplate;
    assert Decimal(5) == "5";
    Alone(table, BARE.(fill := Some('x'), align := Some('<'), width := Some(Literal(5))), "{:x<5}");
  }

  /** A star as fill does no harm to a width. */
  lemma StarFillHarmless(table: CharTable)
    requires table.AgreesWithAscii()
    ensures ParseTemplate(table, "{:*<5}") == [Use(NextArg, Display)]
  {
    hide ParseTemplate;
    assert Decimal(5) == "5";
    Alone(table, BARE.(fill := Some('*'), align := Some('<'), width := Some(Literal(5))), "{:*<5}");
  }

  // ---------------------------------------------------------------------------------------------
  // Which placeholders leave the tables right

  ghost predicate Measures(counts: seq<Use>) {
    forall u :: u in counts ==> u.kind.Measure? && !u.slot.NextArg?
  }

  ghost predicate Mentions(counts: seq<Use>, slot: Slot) {
    exists u :: u in counts && u.slot == slot
  }

  lemma {:induction false} MeasuresAuto(counts: seq<Use>, own: Use)
    requires Measures(counts)
    ensures AutoKinds(counts + [own]) == if own.slot.NextArg? then [own.kind] else []
    decreases |counts|
  {
    if counts != [] {
      assert counts[0] in counts;
      MeasuresAuto(counts[1..], own);
      assert (counts + [own])[1..] == counts[1..] + [own];
    } else {
      assert counts + [own] == [own] && [own][1..] == [];
    }
  }

  lemma MeasuresKinds(counts: seq<Use>, own: Use, slot: Slot)
    requires Measures(counts)
    ensures Kinds(counts + [own], slot)
         == (if Mentions(counts, slot) then {Measure} else {}) + (if own.slot == slot then {own.kind} else {})
  {
    var ks := Kinds(counts + [own], slot);
    forall u | u in counts && u.slot == slot
      ensures u.kind in ks
    {
      assert u in counts + [own];
    }
    if own.slot == slot {
      assert own in counts + [own];
    }
  }

  lemma MeasuresAgree(counts: seq<Use>, read: seq<Use>, slot: Slot, kind: WrapKind)
    requires Measures(counts) && Measures(read) && !kind.Measure?
    requires forall s :: Mentions(read, s) ==> Mentions(counts, s)
    requires forall s :: Mentions(counts, s) ==> s == slot || Mentions(read, s)
    ensures Agree(read + [Use(slot, kind)], counts + [Use(slot, kind)])
  {
    var us, vs := read + [Use(slot, kind)], counts + [Use(slot, kind)];
    MeasuresAuto(read, Use(slot, kind));
    MeasuresAuto(counts, Use(slot, kind));
    forall s: Slot | !s.NextArg?
      ensures SameJoin(Kinds(us, s), Kinds(vs, s))
    {
      MeasuresKinds(read, Use(slot, kind), s);
      MeasuresKinds(counts, Use(slot, kind), s);
      JoinWithMeasure(kind, kind, Mentions(read, s), Mentions(counts, s));
      hide Kinds, Mentions, Measures;
    }
  }

  lemma AgreeingMeasures(counts: seq<Use>, read: seq<Use>, slot: Slot, kind: WrapKind, kind': WrapKind, s: Slot)
    requires Measures(counts) && Measures(read) && !kind.Measure? && !kind'.Measure?
    requires Agree(read + [Use(slot, kind')], counts + [Use(slot, kind)])
    ensures kind == kind'
    ensures Mentions(counts, s) ==> s == slot || Mentions(read, s)
  {
    var us, vs := read + [Use(slot, kind')], counts + [Use(slot, kind)];
    MeasuresAuto(read, Use(slot, kind'));
    MeasuresAuto(counts, Use(slot, kind));
    MeasuresKinds(read, Use(slot, kind'), slot);
    MeasuresKinds(counts, Use(slot, kind), slot);
    MeasuresKinds(read, Use(slot, kind'), s);
    MeasuresKinds(counts, Use(slot, kind), s);
    JoinWithMeasure(kind', kind, Mentions(read, slot), Mentions(counts, slot));
    MentionedSlot(counts, s);
    hide Kinds, AutoKinds, Mentions, Measures;
    if !slot.NextArg? {
      assert SameJoin(Kinds(us, slot), Kinds(vs, slot));
    }
    if Mentions(counts, s) {
      assert SameJoin(Kinds(us, s), Kinds(vs, s));
    }
  }

  lemma MentionedSlot(counts: seq<Use>, s: Slot)
    requires Measures(counts)
    ensures Mentions(counts, s) ==> !s.NextArg?
  {
  }

  /** Two lists of measures, one within the other, before the same argument's own use. */
  lemma MeasuresAgreeIff(counts: seq<Use>, read: seq<Use>, slot: Slot, kind: WrapKind, kind': WrapKind)
    requires Measures(counts) && !kind.Measure? && !kind'.Measure?
    requires forall u :: u in read ==> u in counts
    ensures Agree(read + [Use(slot, kind')], counts + [Use(slot, kind)])
       <==> kind == kind' && forall u :: u in counts ==> u.slot == slot || Mentions(read, u.slot)
  {
    hide Agree;
    var covered := forall u :: u in counts ==> u.slot == slot || Mentions(read, u.slot);
    if kind == kind' && covered {
      MeasuresAgree(counts, read, slot, kind);
    }
    if Agree(read + [Use(slot, kind')], counts + [Use(slot, kind)]) {
      forall u | u in counts
        ensures u.slot == slot || Mentions(read, u.slot)
      {
        assert Mentions(counts, u.slot);
        AgreeingMeasures(counts, read, slot, kind, kind', u.slot);
      }
      AgreeingMeasures(counts, read, slot, kind, kind', slot);
    }
  }

  lemma JoinWithMeasure(a: WrapKind, b: WrapKind, more: bool, more': bool)
    requires !a.Measure? && !b.Measure?
    ensures var ks := (if more then {Measure} else {}) + {a};
            var ls := (if more' then {Measure} else {}) + {b};
            SameJoin(ks, ls) <==> a == b
  {
    var ks: set<WrapKind> := (if more then {Measure} else {}) + {a};
    var ls: set<WrapKind> := (if more' then {Measure} else {}) + {b};
    assert forall c :: Bounds(c, ks) <==> AtMost(a, c) by {
      assert a in ks;
    }
    assert forall c :: Bounds(c, ls) <==> AtMost(b, c) by {
      assert b in ls;
    }
    if SameJoin(ks, ls) {
      assert Bounds(a, ks) && Bounds(b, ls);
      assert AtMost(a, b) && AtMost(b, a);
    }
  }

  lemma CountsAreMeasures(sp: Spec)
    requires sp.precision != Some(Star)
    ensures Measures(Counts(sp))
    ensures forall u :: u in ReadCounts(sp) ==> u in Counts(sp)
  {
  }

  lemma ReadKindsAreFormats(sp: Spec)
    ensures !TypeKind(sp.ty).Measure? && !ReadKind(sp).Measure?
  {
  }

  /** The argument of a star is missing among the automatic ones. */
  lemma StarMissed(sp: Spec, own: Use, own': Use)
    requires sp.precision == Some(Star) && own.slot == own'.slot
    ensures !Agree(ReadCounts(sp) + [own'], Counts(sp) + [own])
  {
    var star := Use(NextArg, Measure);
    assert ReadCounts(sp) == [] || ReadCounts(sp) == WidthUses(sp.width);
    assert Measures(ReadCounts(sp)) && Measures(WidthUses(sp.width));
    MeasuresAuto(ReadCounts(sp), own');
    MeasuresAuto(WidthUses(sp.width), star);
    AutoKindsSnoc(Counts(sp), own);
  }

  lemma {:induction false} AutoKindsSnoc(us: seq<Use>, u: Use)
    ensures AutoKinds(us + [u]) == AutoKinds(us) + (if u.slot.NextArg? then [u.kind] else [])
    decreases |us|
  {
    if us == [] {
      assert us + [u] == [u] && [u][1..] == [];
    } else {
      AutoKindsSnoc(us[1..], u);
      assert (us + [u])[1..] == us[1..] + [u];
    }
  }

  lemma HarmlessIff(table: CharTable, sp: Spec, own: Slot)
    requires SpecOk(table, sp) && sp.precision != Some(Star)
    ensures SpecHarmless(sp, own)
       <==> TypeKind(sp.ty) == ReadKind(sp) && forall u :: u in Counts(sp) ==> u.slot == own || Mentions(ReadCounts(sp), u.slot)
  {
    TypeKindRead(sp.ty);
    hide TypeKind, KindOf, TypeChar;
    if ForeignFill(sp) || sp.width == Some(IndexCount(0)) {
      assert ReadCounts(sp) == [];
    } else if NamedThenPrecision(sp) {
      var w := sp.width.value.id;
      assert ReadCounts(sp) == [Use(Name(w), Measure)];
      assert Use(Name(w), Measure) in ReadCounts(sp);
      assert forall u :: u in Counts(sp) <==> u == Use(Name(w), Measure) || u in PrecisionUses(sp.precision);
    } else {
      assert ReadCounts(sp) == Counts(sp);
    }
  }

  /** What is recorded for a placeholder has the right effect on every analysis exactly when the
      placeholder is harmless. */
  lemma TablesRightIff(table: CharTable, h: Hole)
    requires HoleOk(table, h)
    ensures (forall a :: SameFrom(a, HoleReading(h), HoleUses(h))) <==> HoleHarmless(h)
  {
    SameEffectIff(HoleReading(h), HoleUses(h));
    if h.spec.Some? {
      var sp, own := h.spec.value, ArgSlot(h.arg);
      assert HoleUses(h) == Counts(sp) + [Use(own, TypeKind(sp.ty))];
      if sp.precision == Some(Star) {
        StarMissed(sp, Use(own, TypeKind(sp.ty)), Use(own, ReadKind(sp)));
      } else {
        CountsAreMeasures(sp);
        ReadKindsAreFormats(sp);
        MeasuresAgreeIff(Counts(sp), ReadCounts(sp), own, TypeKind(sp.ty), ReadKind(sp));
        HarmlessIff(table, sp, own);
      }
      hide Agree, Counts, ReadCounts, TypeKind, ReadKind, SpecHarmless, Measures, Mentions;
    }
  }

  // ---------------------------------------------------------------------------------------------
  // Whole templates

  /** A template of Rust's grammar. */
  ghost predicate TemplateOk(table: CharTable, pieces: seq<Piece>) {
    forall i :: 0 <= i < |pieces| && pieces[i].Placeholder? ==> HoleOk(table, pieces[i].hole)
  }

  function TemplateUses(pieces: seq<Piece>): seq<Use> {
    if pieces == [] then []
    else (if pieces[0].Placeholder? then HoleUses(pieces[0].hole) else []) + TemplateUses(pieces[1..])
  }

  function TemplateReading(pieces: seq<Piece>): seq<Use> {
    if pieces == [] then []
    else (if pieces[0].Placeholder? then HoleReading(pieces[0].hole) else []) + TemplateReading(pieces[1..])
  }

  predicate TemplateUnderstood(pieces: seq<Piece>) {
    forall i :: 0 <= i < |pieces| && pieces[i].Placeholder? ==> HoleUnderstood(pieces[i].hole)
  }

  predicate TemplateHarmless(pieces: seq<Piece>) {
    forall i :: 0 <= i < |pieces| && pieces[i].Placeholder? ==> HoleHarmless(pieces[i].hole)
  }

  lemma HoleTextHead(table: CharTable, h: Hole, rest: string)
    requires table.AgreesWithAscii() && HoleOk(table, h)
    ensures HoleText(h, rest) != "" && HoleText(h, rest)[0] != '{'
  {
    if h.arg.NameArg? {
      IdentStartCalm(table, h.arg.id[0], "");
    } else if h.arg.IndexArg? {
      assert IsDigit(Decimal(h.arg.n)[0]);
    }
    hide SpecText;
  }

  lemma TextSkipped(table: CharTable, c: char, rest: string)
    ensures ParseTemplate(table, (if c == '{' || c == '}' then [c, c] else [c]) + rest) == ParseTemplate(table, rest)
  {
    if c == '{' {
      assert ([c, c] + rest)[2..] == rest;
    } else if c == '}' {
      assert ([c, c] + rest)[1..] == [c] + rest && ([c] + rest)[1..] == rest;
    } else {
      assert ([c] + rest)[1..] == rest;
    }
  }

  lemma PrintCons(pieces: seq<Piece>)
    requires pieces != []
    ensures var p, rest, reading := pieces[0], Print(pieces[1..]), TemplateReading(pieces[1..]);
            && (p.Text? ==>
                  Print(pieces) == (if p.c == '{' || p.c == '}' then [p.c, p.c] else [p.c]) + rest
                  && TemplateReading(pieces) == reading)
            && (p.Placeholder? ==>
                  Print(pieces) == "{" + HoleText(p.hole, rest)
                  && TemplateReading(pieces) == HoleReading(p.hole) + reading)
  {
    hide HoleText, HoleReading;
    assert [] + TemplateReading(pieces[1..]) == TemplateReading(pieces[1..]);
  }

  lemma NothingPrinted(table: CharTable)
    ensures ParseTemplate(table, Print([])) == TemplateReading([])
  {
  }

  /** What the analyser records for any printed template of the grammar. */
  lemma {:induction false} PrintedTemplateIsRead(table: CharTable, pieces: seq<Piece>)
    requires table.AgreesWithAscii() && TemplateOk(table, pieces)
    ensures ParseTemplate(table, Print(pieces)) == TemplateReading(pieces)
    decreases |pieces|
  {
    hide ParseTemplate, Print, TemplateReading, HoleText, HoleReading, HoleOk;
    if pieces == [] {
      NothingPrinted(table);
    } else {
      var rest := Print(pieces[1..]);
      PrintedTemplateIsRead(table, pieces[1..]);
      PrintCons(pieces);
      match pieces[0]
      case Text(c) => TextSkipped(table, c, rest);
      case Placeholder(h) => HoleInTemplate(table, h, rest);
    }
  }

  lemma NoLonger(table: CharTable, h: Hole)
    requires HoleOk(table, h)
    ensures |HoleReading(h)| <= |HoleUses(h)|
  {
  }

  lemma {:induction false} ReadingNoLonger(table: CharTable, pieces: seq<Piece>)
    requires TemplateOk(table, pieces)
    ensures |TemplateReading(pieces)| <= |TemplateUses(pieces)|
    decreases |pieces|
  {
    if pieces != [] {
      ReadingNoLonger(table, pieces[1..]);
      if pieces[0].Placeholder? {
        NoLonger(table, pieces[0].hole);
      }
      hide HoleReading, HoleUses, HoleOk;
    }
  }

  lemma SameParts<T>(a: seq<T>, b: seq<T>, c: seq<T>, d: seq<T>)
    requires |a| <= |c| && |b| <= |d|
    ensures a + b == c + d <==> a == c && b == d
  {
    if a + b == c + d {
      assert |a + b| == |c + d|;
      assert a == (a + b)[..|a|] && c == (c + d)[..|a|];
      assert b == (a + b)[|a|..] && d == (c + d)[|a|..];
    }
  }

  lemma {:induction false} ReadingRightIff(table: CharTable, pieces: seq<Piece>)
    requires TemplateOk(table, pieces)
    ensures TemplateReading(pieces) == TemplateUses(pieces) <==> TemplateUnderstood(pieces)
    decreases |pieces|
  {
    if pieces != [] {
      var tail := pieces[1..];
      ReadingRightIff(table, tail);
      ReadingNoLonger(table, tail);
      assert TemplateUnderstood(pieces) <==> (pieces[0].Placeholder? ==> HoleUnderstood(pieces[0].hole)) && TemplateUnderstood(tail);
      match pieces[0]
      case Text(_) =>
        assert [] + TemplateReading(tail) == TemplateReading(tail) && [] + TemplateUses(tail) == TemplateUses(tail);
      case Placeholder(h) =>
        UsesRightIff(table, h);
        NoLonger(table, h);
        SameParts(HoleReading(h), TemplateReading(tail), HoleUses(h), TemplateUses(tail));
        hide HoleReading, HoleUses, HoleUnderstood, HoleOk, TemplateUnderstood;
    }
  }

  /** The analyser inverts the printer: on a printed template it records the uses of the template, in
      order, exactly when every placeholder is understood. */
  lemma PrintedTemplateReadsBack(table: CharTable, pieces: seq<Piece>)
    requires table.AgreesWithAscii() && TemplateOk(table, pieces)
    ensures ParseTemplate(table, Print(pieces)) == TemplateUses(pieces) <==> TemplateUnderstood(pieces)
  {
    PrintedTemplateIsRead(table, pieces);
    ReadingRightIff(table, pieces);
    hide TemplateOk, TemplateUnderstood, ParseTemplate, Print;
  }

  lemma {:induction false} HarmlessTemplate(table: CharTable, pieces: seq<Piece>, a: Analysis)
    requires TemplateOk(table, pieces) && TemplateHarmless(pieces)
    ensures RecordAll(a, TemplateReading(pieces)) == RecordAll(a, TemplateUses(pieces))
    decreases |pieces|
  {
    if pieces != [] {
      var tail := pieces[1..];
      match pieces[0]
      case Text(_) =>
        HarmlessTemplate(table, tail, a);
        assert [] + TemplateReading(tail) == TemplateReading(tail) && [] + TemplateUses(tail) == TemplateUses(tail);
      case Placeholder(h) =>
        TablesRightIff(table, h);
        assert SameFrom(a, HoleReading(h), HoleUses(h));
        HarmlessTemplate(table, tail, RecordAll(a, HoleUses(h)));
        RecordAllConcat(a, HoleReading(h), TemplateReading(tail));
        RecordAllConcat(a, HoleUses(h), TemplateUses(tail));
        hide HoleReading, HoleUses, HoleOk, HoleHarmless;
    }
  }

  /** The analysis of a printed template is that of the template's own uses exactly when the joins over
      all its placeholders agree, slot by slot, and so do the automatic kinds. */
  lemma PrintedTemplateAnalysisIff(table: CharTable, pieces: seq<Piece>)
    requires table.AgreesWithAscii() && TemplateOk(table, pieces)
    ensures RecordAll(NOTHING, ParseTemplate(table, Print(pieces))) == RecordAll(NOTHING, TemplateUses(pieces))
       <==> Agree(TemplateReading(pieces), TemplateUses(pieces))
  {
    PrintedTemplateIsRead(table, pieces);
    var us, vs := TemplateReading(pieces), TemplateUses(pieces);
    hide TemplateOk, TemplateUses, TemplateReading, ParseTemplate, Print, Agree, RecordAll;
    if Agree(us, vs) {
      AgreeingUses(NOTHING, us, vs);
    }
    if RecordAll(NOTHING, us) == RecordAll(NOTHING, vs) {
      SameTablesAgree(us, vs);
    }
  }

  /** It is so when every placeholder is harmless on its own. */
  lemma HarmlessAgrees(table: CharTable, pieces: seq<Piece>)
    requires TemplateOk(table, pieces) && TemplateHarmless(pieces)
    ensures Agree(TemplateReading(pieces), TemplateUses(pieces))
  {
    HarmlessTemplate(table, pieces, NOTHING);
    SameTablesAgree(TemplateReading(pieces), TemplateUses(pieces));
  }

  /** But also when another placeholder makes up for what is overlooked, as in `{:0$} {0}`: the width
      argument that the first one overlooks is displayed by the second. */
  lemma OtherPlaceholderMakesUp()
    ensures var pieces := [Placeholder(Hole(NoArg, Some(BARE.(width := Some(IndexCount(0)))), "")),
                           Text(' '), Placeholder(Hole(IndexArg(0), None, ""))];
            && !HoleHarmless(pieces[0].hole)
            && Agree(TemplateReading(pieces), TemplateUses(pieces))
  {
    var first := Hole(NoArg, Some(BARE.(width := Some(IndexCount(0)))), "");
    var last := Hole(IndexArg(0), None, "");
    var pieces := [Placeholder(first), Text(' '), Placeholder(last)];
    assert HoleReading(first) == [Use(NextArg, Display)];
    assert HoleUses(first) == [Use(Index(0), Measure), Use(NextArg, Display)];
    assert HoleReading(last) == HoleUses(last) == [Use(Index(0), Display)];
    TwoHoles(first, ' ', last);
    hide HoleReading, HoleUses, TemplateReading, TemplateUses, Agree;
    MadeUp();
  }

  lemma TwoHoles(a: Hole, c: char, b: Hole)
    ensures var pieces := [Placeholder(a), Text(c), Placeholder(b)];
            && TemplateReading(pieces) == HoleReading(a) + HoleReading(b)
            && TemplateUses(pieces) == HoleUses(a) + HoleUses(b)
  {
    hide HoleReading, HoleUses;
    var pieces := [Placeholder(a), Text(c), Placeholder(b)];
    var tail := pieces[1..];
    assert tail[1..] == [Placeholder(b)] && tail[1..][1..] == [];
    assert TemplateReading(tail[1..]) == HoleReading(b) + [] == HoleReading(b);
    assert TemplateUses(tail[1..]) == HoleUses(b) + [] == HoleUses(b);
    assert TemplateReading(tail) == [] + HoleReading(b) == HoleReading(b);
    assert TemplateUses(tail) == [] + HoleUses(b) == HoleUses(b);
  }

  lemma MadeUp()
    ensures Agree([Use(NextArg, Display)] + [Use(Index(0), Display)],
                  [Use(Index(0), Measure), Use(NextArg, Display)] + [Use(Index(0), Display)])
  {
    var us, vs := [Use(NextArg, Display), Use(Index(0), Display)],
                  [Use(Index(0), Measure), Use(NextArg, Display), Use(Index(0), Display)];
    assert us[1..] == [Use(Index(0), Display)] && us[1..][1..] == [];
    assert vs[1..] == us;
    assert RecordAll(NOTHING, us) == RecordAll(NOTHING, vs) by {
      assert Record(NOTHING, vs[0]) == Analysis(map[0 := Measure], map[], []);
      assert Record(Record(NOTHING, vs[0]), us[0]) == Analysis(map[0 := Measure], map[], [Display]);
      assert Record(NOTHING, us[0]) == Analysis(map[], map[], [Display]);
      assert Record(Analysis(map[0 := Measure], map[], [Display]), us[1])
          == Analysis(map[0 := Display], map[], [Display])
          == Record(Analysis(map[], map[], [Display]), us[1]);
    }
    SameTablesAgree(us, vs);
    assert us == [Use(NextArg, Display)] + [Use(Index(0), Display)];
    assert vs == [Use(Index(0), Measure), Use(NextArg, Display)] + [Use(Index(0), Display)];
  }

  /** Then every indexed or named slot holds the join of its uses, and the automatic placeholders come in
      order. */
  lemma PrintedTemplateAnalysis(table: CharTable, pieces: seq<Piece>, slot: Slot)
    requires table.AgreesWithAscii() && TemplateOk(table, pieces) && !slot.NextArg?
    requires Agree(TemplateReading(pieces), TemplateUses(pieces))
    ensures var a := RecordAll(NOTHING, ParseTemplate(table, Print(pieces)));
            && Holds(EntryOf(a, slot), Kinds(TemplateUses(pieces), slot))
            && a.autoKinds == AutoKinds(TemplateUses(pieces))
  {
    PrintedTemplateAnalysisIff(table, pieces);
    SlotHoldsJoin(TemplateUses(pieces), slot);
    AutoKindsInOrder(NOTHING, TemplateUses(pieces));
    hide TemplateOk, TemplateUses, TemplateReading, ParseTemplate, Print, Agree;
  }

  lemma {:induction false} ReadingOfPieces(pieces: seq<Piece>, u: Use)
    ensures u in TemplateReading(pieces)
       <==> exists p :: p in pieces && p.Placeholder? && u in HoleReading(p.hole)
    decreases |pieces|
  {
    if pieces != [] {
      ReadingOfPieces(pieces[1..], u);
      hide HoleReading;
      assert forall p :: p in pieces <==> p == pieces[0] || p in pieces[1..];
    }
  }

  /** Reordering the pieces of any template of the grammar leaves the slot tables as they were. */
  lemma ReorderedTemplate(table: CharTable, ps: seq<Piece>, qs: seq<Piece>)
    requires table.AgreesWithAscii() && TemplateOk(table, ps) && multiset(ps) == multiset(qs)
    ensures var a := RecordAll(NOTHING, ParseTemplate(table, Print(ps)));
            var b := RecordAll(NOTHING, ParseTemplate(table, Print(qs)));
            a.positional == b.positional && a.named == b.named
  {
    assert forall p :: p in ps <==> p in multiset(ps);
    assert forall p :: p in qs <==> p in multiset(qs);
    assert TemplateOk(table, qs) by {
      forall i | 0 <= i < |qs| && qs[i].Placeholder?
        ensures HoleOk(table, qs[i].hole)
      {
        assert qs[i] in ps;
      }
    }
    PrintedTemplateIsRead(table, ps);
    PrintedTemplateIsRead(table, qs);
    hide HoleReading, ParseTemplate, Print, TemplateReading, HoleOk;
    forall u
      ensures u in TemplateReading(ps) <==> u in TemplateReading(qs)
    {
      ReadingOfPieces(ps, u);
      ReadingOfPieces(qs, u);
    }
    TablesIgnoreOrder(TemplateReading(ps), TemplateReading(qs));
  }
}
