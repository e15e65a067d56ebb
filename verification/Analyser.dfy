/** The format-string analyser as the program runs it: a cursor over the text and three tables that
    are updated as placeholders are read.  Each method is proved against its function in `Template`. */
module Analyser {
  import opened Allocation
  import opened Sequences
  import opened WrapKinds
  import opened Template

  class FormatAnalyser {
    const table: CharTable
    const text: string
    var pos: nat
    var positional: map<nat, WrapKind>
    var named: map<string, WrapKind>
    var autoKinds: seq<WrapKind>

    ghost predicate Valid()
      reads this
    {
      pos <= |text|
    }

    ghost function Rest(): string
      reads this
      requires Valid()
    {
      text[pos..]
    }

    ghost function Tables(): Analysis
      reads this
    {
      Analysis(positional, named, autoKinds)
    }

    constructor (table: CharTable, text: string)
      ensures Valid() && Rest() == text == this.text && this.table == table
      ensures Tables() == NOTHING
    {
      this.table, this.text := table, text;
      pos := 0;
      positional, named, autoKinds := map[], map[], [];
    }

    lemma TakeStep(p: char -> bool, s: string)
      requires s != "" && p(s[0])
      ensures TakeWhile(p, s) == ([s[0]] + TakeWhile(p, s[1..]).0, TakeWhile(p, s[1..]).1)
    {
    }

    /** Consumes characters as long as `p` holds. */
    method ReadWhile(p: char -> bool) returns (taken: string)
      requires Valid()
      modifies this`pos
      ensures Valid()
      ensures (taken, Rest()) == TakeWhile(p, old(Rest()))
    {
      hide TakeWhile;
      taken := "";
      ghost var start := Rest();
      assert "" + TakeWhile(p, start).0 == TakeWhile(p, start).0;
      while pos < |text| && p(text[pos])
        invariant Valid()
        invariant TakeWhile(p, start).0 == taken + TakeWhile(p, Rest()).0
        invariant TakeWhile(p, start).1 == TakeWhile(p, Rest()).1
        decreases |text| - pos
      {
        ghost var before, rest := taken, TakeWhile(p, Rest()[1..]).0;
        TakeStep(p, Rest());
        assert Rest()[1..] == text[pos + 1..];
        Assoc(before, [text[pos]], rest);
        taken := taken + [text[pos]];
        pos := pos + 1;
      }
      TakeStops(p, Rest());
      assert taken + "" == taken;
    }

    lemma TakeStops(p: char -> bool, s: string)
      requires StopsAt(p, s)
      ensures TakeWhile(p, s) == ("", s)
    {
    }

    /** `parse::<usize>().unwrap_or(0)` of a run of digits. */
    method ReadNumber() returns (n: nat)
      requires Valid()
      modifies this`pos
      ensures Valid()
      ensures (n, Rest()) == TakeNumber(old(Rest()))
    {
      TakeWhileAll(IsDigit, Rest());
      var digits := ReadWhile(IsDigit);
      var i, value := 0, 0;
      assert digits[..0] == "";
      while i < |digits|
        invariant 0 <= i <= |digits| && value == DigitsValue(digits[..i])
      {
        assert digits[..i + 1][..i] == digits[..i];
        value := value * 10 + Digit(digits[i]);
        i := i + 1;
      }
      assert digits[..i] == digits;
      n := if value <= USIZE_MAX then value else 0;
    }

    method Skip()
      requires Valid() && Rest() != ""
      modifies this`pos
      ensures Valid() && Rest() == old(Rest())[1..]
    {
      pos := pos + 1;
    }

    method MergePositional(key: nat, kind: WrapKind)
      modifies this`positional
      ensures Tables() == Record(old(Tables()), Use(Index(key), kind))
    {
      var merged := if key in positional then Merge(positional[key], kind) else kind;
      positional := positional[key := merged];
    }

    method MergeNamed(key: string, kind: WrapKind)
      modifies this`named
      ensures Tables() == Record(old(Tables()), Use(Name(key), kind))
    {
      var merged := if key in named then Merge(named[key], kind) else kind;
      named := named[key := merged];
    }

    method ParseArgSpec() returns (slot: Slot)
      requires Valid()
      modifies this`pos
      ensures Valid()
      ensures (slot, Rest()) == ParseArg(table, old(Rest()))
    {
      if pos == |text| || text[pos] == ':' || text[pos] == '}' {
        return NextArg;
      }
      if IsDigit(text[pos]) {
        var n := ReadNumber();
        return Index(n);
      }
      var name := ReadWhile(c => table.IdentPart(c));
      slot := if name == "" then NextArg else Name(name);
    }

    lemma RecordOne(a: Analysis, u: Use)
      ensures RecordAll(a, [u]) == Record(a, u)
    {
      assert [u][1..] == [];
    }

    method ParseWidthOrPrecision()
      requires Valid()
      modifies this`pos, this`positional
      ensures Valid()
      ensures var (uses, rest) := ParseCount(old(Rest()));
              Rest() == rest && Tables() == RecordAll(old(Tables()), uses)
    {
      if pos == |text| {
        return;
      }
      if text[pos] == '*' {
        Skip();
        return;
      }
      if IsDigit(text[pos]) {
        var n := ReadNumber();
        if pos < |text| && text[pos] == '$' {
          Skip();
          RecordOne(Tables(), Use(Index(n), Measure));
          MergePositional(n, Measure);
        }
      }
    }

    method ParseLastChar() returns (ty: Option<char>)
      requires Valid()
      modifies this`pos
      ensures Valid()
      ensures (ty, Rest()) == ParseLast(old(Rest()))
    {
      if pos < |text| && text[pos] != '}' {
        ty := Some(text[pos]);
        Skip();
      } else {
        ty := None;
      }
    }

    method ParseNameAndType() returns (ty: Option<char>)
      requires Valid()
      modifies this`pos, this`named
      ensures Valid()
      ensures var (uses, ty', rest) := ParseTail(table, old(Rest()));
              ty == ty' && Rest() == rest && Tables() == RecordAll(old(Tables()), uses)
    {
      if pos < |text| && table.IdentStart(text[pos]) {
        var first := text[pos];
        var id := ReadWhile(c => table.IdentPart(c));
        if pos < |text| && text[pos] == '$' {
          Skip();
          RecordOne(Tables(), Use(Name(id), Measure));
          MergeNamed(id, Measure);
        } else {
          return Some(first);
        }
      }
      ty := ParseLastChar();
    }

    method ParseFormatSpec() returns (ty: Option<char>)
      requires Valid()
      modifies this`pos, this`positional, this`named
      ensures Valid()
      ensures var (uses, ty', rest) := ParseSpec(table, old(Rest()));
              ty == ty' && Rest() == rest && Tables() == RecordAll(old(Tables()), uses)
    {
      hide ParseCount, ParseTail, RecordAll, TakeWhile;
      ghost var start, s := Tables(), Rest();
      var _ := ReadWhile(IsFlag);
      ghost var (u1, s1) := ParseCount(Rest());
      ParseWidthOrPrecision();
      ghost var u2 := ParsePrecision(Rest()).0;
      if pos < |text| && text[pos] == '.' {
        Skip();
        ParseWidthOrPrecision();
      } else {
        NothingRecorded(Tables());
      }
      ghost var u3 := ParseTail(table, Rest()).0;
      ty := ParseNameAndType();
      RecordAllConcat(start, u1, u2);
      RecordAllConcat(start, u1 + u2, u3);
    }

    lemma NothingRecorded(a: Analysis)
      ensures RecordAll(a, []) == a
    {
    }

    /** One placeholder, the cursor just behind its opening brace. */
    method ReadHole()
      requires Valid()
      modifies this
      ensures Valid()
      ensures var (uses, rest) := ParseHole(table, old(Rest()));
              Rest() == rest && Tables() == RecordAll(old(Tables()), uses)
    {
      hide ParseArg, ParseSpec, RecordAll;
      ghost var start := Tables();
      var slot := ParseArgSpec();
      var ty := None;
      ghost var uses := [];
      if pos < |text| && text[pos] == ':' {
        Skip();
        uses := ParseSpec(table, Rest()).0;
        ty := ParseFormatSpec();
      } else {
        NothingRecorded(start);
      }
      if pos < |text| {
        Skip();
      }
      var wrap := KindOf(ty);
      RecordAllConcat(start, uses, [Use(slot, wrap)]);
      RecordOne(Tables(), Use(slot, wrap));
      match slot
      case Index(n) => MergePositional(n, wrap);
      case Name(id) => MergeNamed(id, wrap);
      case NextArg => autoKinds := autoKinds + [wrap];
    }

    /** `analyze_format_string`. */
    method Analyse()
      requires Valid()
      modifies this
      ensures Valid() && Rest() == ""
      ensures Tables() == RecordAll(old(Tables()), ParseTemplate(table, old(Rest())))
    {
      while pos < |text|
        invariant Valid()
        invariant RecordAll(Tables(), ParseTemplate(table, Rest())) == RecordAll(old(Tables()), ParseTemplate(table, old(Rest())))
        decreases |text| - pos
      {
        hide ParseHole, RecordAll;
        ghost var s := Rest();
        var c := text[pos];
        Skip();
        if c == '{' {
          if pos < |text| && text[pos] == '{' {
            Skip();
            assert Rest() == s[2..];
          } else {
            ghost var start := Tables();
            ghost var (uses, rest) := ParseHole(table, Rest());
            ReadHole();
            RecordAllConcat(start, uses, ParseTemplate(table, rest));
          }
        }
      }
    }
  }
}
