/** How the analyser reads a format template, as functions from the text that remains to what was
    read and the text after it. */
module Template {
  import opened Allocation
  import opened WrapKinds

  /** The Unicode properties that matter here: the two the analyser consults, and white space. */
  datatype CharTable = CharTable(alphabetic: char -> bool, numeric: char -> bool, space: char -> bool) {
    predicate IdentStart(c: char) {
      alphabetic(c) || c == '_'
    }

    predicate IdentPart(c: char) {
      alphabetic(c) || numeric(c) || c == '_'
    }

    /** Right on ASCII; and white space is never part of an identifier. */
    ghost predicate AgreesWithAscii() {
      forall c: char ::
        && (c < 128 as char ==>
              && (alphabetic(c) <==> 'a' <= c <= 'z' || 'A' <= c <= 'Z')
              && (numeric(c) <==> IsDigit(c))
              && (space(c) <==> c == ' ' || 9 as char <= c <= 13 as char))
        && (space(c) ==> !alphabetic(c) && !numeric(c))
    }
  }

  predicate IsDigit(c: char) {
    '0' <= c <= '9'
  }

  predicate IsFlag(c: char) {
    c in "<>^=+- #0"
  }

  /** The longest prefix on which `p` holds, and the rest. */
  function TakeWhile(p: char -> bool, s: string): (r: (string, string))
    ensures s == r.0 + r.1
    ensures s != "" && p(s[0]) ==> r.0 != ""
  {
    if s == "" || !p(s[0]) then ("", s)
    else
      var (a, b) := TakeWhile(p, s[1..]);
      ([s[0]] + a, b)
  }

  predicate StopsAt(p: char -> bool, s: string) {
    s == "" || !p(s[0])
  }

  lemma {:induction false} TakeWhileExact(p: char -> bool, a: string, b: string)
    requires forall i :: 0 <= i < |a| ==> p(a[i])
    requires StopsAt(p, b)
    ensures TakeWhile(p, a + b) == (a, b)
  {
    if a == "" {
      assert a + b == b;
    } else {
      assert (a + b)[1..] == a[1..] + b && (a + b)[0] == a[0];
      TakeWhileExact(p, a[1..], b);
      assert [a[0]] + a[1..] == a;
    }
  }

  function DigitsValue(digits: string): nat
    requires forall i :: 0 <= i < |digits| ==> IsDigit(digits[i])
  {
    if digits == "" then 0
    else DigitsValue(digits[..|digits| - 1]) * 10 + Digit(digits[|digits| - 1])
  }

  function Digit(c: char): nat
    requires IsDigit(c)
  {
    c as int - '0' as int
  }

  lemma {:induction false} TakeWhileAll(p: char -> bool, s: string)
    ensures forall i :: 0 <= i < |TakeWhile(p, s).0| ==> p(TakeWhile(p, s).0[i])
    ensures StopsAt(p, TakeWhile(p, s).1)
  {
    if s != "" && p(s[0]) {
      TakeWhileAll(p, s[1..]);
    }
  }

  /** A run of digits, read as `parse::<usize>().unwrap_or(0)` reads it. */
  function TakeNumber(s: string): (r: (nat, string))
    ensures |r.1| <= |s|
  {
    TakeWhileAll(IsDigit, s);
    var (digits, rest) := TakeWhile(IsDigit, s);
    (if DigitsValue(digits) <= USIZE_MAX then DigitsValue(digits) else 0, rest)
  }

  function Drop1(s: string): string {
    if s == "" then s else s[1..]
  }

  // ---------------------------------------------------------------------------------------------
  // The parser

  function ParseArg(table: CharTable, s: string): (r: (Slot, string))
    ensures |r.1| <= |s|
  {
    if s == "" || s[0] == ':' || s[0] == '}' then (NextArg, s)
    else if IsDigit(s[0]) then
      var (n, rest) := TakeNumber(s);
      (Index(n), rest)
    else
      var (name, rest) := TakeWhile(c => table.IdentPart(c), s);
      (if name == "" then NextArg else Name(name), rest)
  }

  /** `parse_width_or_precision`. */
  function ParseCount(s: string): (r: (seq<Use>, string))
    ensures |r.1| <= |s|
  {
    if s == "" then ([], s)
    else if s[0] == '*' then ([], s[1..])
    else if IsDigit(s[0]) then
      var (n, rest) := TakeNumber(s);
      if rest != "" && rest[0] == '$' then ([Use(Index(n), Measure)], rest[1..]) else ([], rest)
    else ([], s)
  }

  /** One more character, unless it is the closing brace. */
  function ParseLast(s: string): (r: (Option<char>, string))
    ensures |r.1| <= |s|
  {
    if s == "" || s[0] == '}' then (None, s) else (Some(s[0]), s[1..])
  }

  /** What follows the precision: a named reference, a type character, both, or neither. */
  function ParseTail(table: CharTable, s: string): (r: (seq<Use>, Option<char>, string))
    ensures |r.2| <= |s|
  {
    if s != "" && table.IdentStart(s[0]) then
      var (id, rest) := TakeWhile(c => table.IdentPart(c), s);
      if rest != "" && rest[0] == '$' then
        var (ty, rest') := ParseLast(rest[1..]);
        ([Use(Name(id), Measure)], ty, rest')
      else ([], Some(s[0]), rest)
    else
      var (ty, rest) := ParseLast(s);
      ([], ty, rest)
  }

  function ParsePrecision(s: string): (r: (seq<Use>, string))
    ensures |r.1| <= |s|
  {
    if s != "" && s[0] == '.' then ParseCount(s[1..]) else ([], s)
  }

  /** `parse_format_spec`. */
  function ParseSpec(table: CharTable, s: string): (r: (seq<Use>, Option<char>, string))
    ensures |r.2| <= |s|
  {
    var (_, s1) := TakeWhile(IsFlag, s);
    var (width, s2) := ParseCount(s1);
    var (precision, s3) := ParsePrecision(s2);
    var (named, ty, rest) := ParseTail(table, s3);
    (width + precision + named, ty, rest)
  }

  function KindOf(ty: Option<char>): WrapKind {
    if ty == Some('?') then Debug
    else if ty == Some('x') then LowerHex
    else if ty == Some('X') then UpperHex
    else if ty == Some('e') then LowerExp
    else if ty == Some('E') then UpperExp
    else Display
  }

  /** A placeholder, from just after its opening brace to just after its closing one. */
  function ParseHole(table: CharTable, s: string): (r: (seq<Use>, string))
    ensures |r.1| <= |s|
  {
    var (slot, s1) := ParseArg(table, s);
    var (uses, ty, s2) := if s1 != "" && s1[0] == ':' then ParseSpec(table, s1[1..]) else ([], None, s1);
    (uses + [Use(slot, KindOf(ty))], Drop1(s2))
  }

  /** The uses of a whole template, in the order they are recorded. */
  function ParseTemplate(table: CharTable, s: string): seq<Use>
    decreases |s|
  {
    if s == "" then []
    else if s[0] != '{' then ParseTemplate(table, s[1..])
    else if |s| > 1 && s[1] == '{' then ParseTemplate(table, s[2..])
    else
      var (uses, rest) := ParseHole(table, s[1..]);
      uses + ParseTemplate(table, rest)
  }

  // ---------------------------------------------------------------------------------------------
  // The end of the text

  lemma {:induction false} TakeWhileClosed(p: char -> bool, s: string)
    requires !p('}')
    ensures TakeWhile(p, s + "}") == (TakeWhile(p, s).0, TakeWhile(p, s).1 + "}")
    decreases |s|
  {
    if s != "" {
      assert (s + "}")[1..] == s[1..] + "}";
      TakeWhileClosed(p, s[1..]);
    }
  }

  lemma TakeNumberClosed(s: string)
    ensures TakeNumber(s + "}") == (TakeNumber(s).0, TakeNumber(s).1 + "}")
  {
    TakeWhileClosed(IsDigit, s);
  }

  lemma ParseArgClosed(table: CharTable, s: string)
    requires !table.IdentPart('}')
    ensures ParseArg(table, s + "}") == (ParseArg(table, s).0, ParseArg(table, s).1 + "}")
  {
    TakeNumberClosed(s);
    TakeWhileClosed(c => table.IdentPart(c), s);
    hide TakeNumber, TakeWhile;
  }

  lemma ParseCountClosed(s: string)
    ensures ParseCount(s + "}") == (ParseCount(s).0, ParseCount(s).1 + "}")
  {
    TakeNumberClosed(s);
    var rest := TakeNumber(s).1;
    hide TakeNumber;
    if s != "" {
      assert (s + "}")[1..] == s[1..] + "}";
    }
    if rest != "" {
      assert (rest + "}")[1..] == rest[1..] + "}";
    }
  }

  lemma ParseLastClosed(s: string)
    ensures ParseLast(s + "}") == (ParseLast(s).0, ParseLast(s).1 + "}")
  {
    if s != "" {
      assert (s + "}")[1..] == s[1..] + "}";
    }
  }

  lemma ParseTailClosed(table: CharTable, s: string)
    requires !table.IdentStart('}') && !table.IdentPart('}')
    ensures ParseTail(table, s + "}") == (ParseTail(table, s).0, ParseTail(table, s).1, ParseTail(table, s).2 + "}")
  {
    TakeWhileClosed(c => table.IdentPart(c), s);
    var rest := TakeWhile(c => table.IdentPart(c), s).1;
    ParseLastClosed(s);
    if rest != "" {
      assert (rest + "}")[1..] == rest[1..] + "}";
      ParseLastClosed(rest[1..]);
    }
    hide TakeWhile, ParseLast;
  }

  lemma ParsePrecisionClosed(s: string)
    ensures ParsePrecision(s + "}") == (ParsePrecision(s).0, ParsePrecision(s).1 + "}")
  {
    if s != "" {
      assert (s + "}")[1..] == s[1..] + "}";
      ParseCountClosed(s[1..]);
    }
    hide ParseCount;
  }

  lemma ParseSpecClosed(table: CharTable, s: string)
    requires !table.IdentStart('}') && !table.IdentPart('}')
    ensures ParseSpec(table, s + "}") == (ParseSpec(table, s).0, ParseSpec(table, s).1, ParseSpec(table, s).2 + "}")
  {
    hide ParseCount, ParsePrecision, ParseTail, TakeWhile;
    TakeWhileClosed(IsFlag, s);
    var s1 := TakeWhile(IsFlag, s).1;
    ParseCountClosed(s1);
    ParsePrecisionClosed(ParseCount(s1).1);
    ParseTailClosed(table, ParsePrecision(ParseCount(s1).1).1);
  }

  lemma ParseHoleClosed(table: CharTable, s: string)
    requires !table.IdentStart('}') && !table.IdentPart('}')
    ensures var r, r' := ParseHole(table, s), ParseHole(table, s + "}");
            r'.0 == r.0 && (r'.1 == r.1 + "}" || r'.1 == r.1 == "")
  {
    hide ParseArg, ParseSpec;
    ParseArgClosed(table, s);
    var s1 := ParseArg(table, s).1;
    var s2 := if s1 != "" && s1[0] == ':' then ParseSpec(table, s1[1..]).2 else s1;
    if s1 != "" {
      assert (s1 + "}")[1..] == s1[1..] + "}";
      ParseSpecClosed(table, s1[1..]);
    }
    if s2 != "" {
      assert (s2 + "}")[1..] == s2[1..] + "}";
    }
  }

  /** A closing brace at the end of a text never matters: outside a placeholder it is passed over, and a
      placeholder that the text leaves open is read as if the end closed it. */
  lemma {:induction false} OpenPlaceholder(table: CharTable, s: string)
    requires table.AgreesWithAscii()
    ensures ParseTemplate(table, s + "}") == ParseTemplate(table, s)
    decreases |s|
  {
    hide ParseHole;
    assert '}' < 128 as char && !table.alphabetic('}') && !table.numeric('}');
    var t := s + "}";
    if s == "" {
      assert t[1..] == "";
    } else if s[0] != '{' {
      assert t[1..] == s[1..] + "}";
      OpenPlaceholder(table, s[1..]);
    } else if |s| > 1 && s[1] == '{' {
      assert t[2..] == s[2..] + "}";
      OpenPlaceholder(table, s[2..]);
    } else {
      assert t[1..] == s[1..] + "}";
      ParseHoleClosed(table, s[1..]);
      OpenPlaceholder(table, ParseHole(table, s[1..]).1);
    }
  }
}
