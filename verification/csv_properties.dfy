/**
 * Properties of the CSV tokenizer: field counts, the quoting scheme of
 * section 2 of RFC 4180 (rules 6 and 7) with the worker's deviations,
 * line-ending independence, row counts and progress.
 */
module CsvProperties {
  import opened Wrappers
  import opened Text
  import opened CsvWorker

  // ---------------------------------------------------------------------
  // Scanning lemmas
  // ---------------------------------------------------------------------

  /** Outside quotes, a quote-free line is split exactly at its commas. */
  lemma {:induction false} ScanUnquoted(s: string, current: string, fields: seq<string>)
    requires '"' !in s
    ensures ScanLine(s, false, current, fields)
         == fields + [current + Split(s, ',')[0]] + Split(s, ',')[1..]
  {
    if |s| == 0 {
      assert current + "" == current;
    } else {
      assert s[0] != '"' by { assert s[0] in s; }
      assert '"' !in s[1..] by { assert forall c :: c in s[1..] ==> c in s; }
      if s[0] == ',' {
        ScanUnquoted(s[1..], "", fields + [current]);
        UnquotedComma(s, current, fields);
      } else {
        ScanUnquoted(s[1..], current + [s[0]], fields);
        UnquotedOther(s, current, fields);
      }
    }
  }

  /** The comma step of `ScanUnquoted`: the current value is pushed and a new one starts. */
  lemma UnquotedComma(s: string, current: string, fields: seq<string>)
    requires |s| > 0 && s[0] == ','
    requires ScanLine(s[1..], false, "", fields + [current])
          == fields + [current] + ["" + Split(s[1..], ',')[0]] + Split(s[1..], ',')[1..]
    ensures ScanLine(s, false, current, fields)
         == fields + [current + Split(s, ',')[0]] + Split(s, ',')[1..]
  {
    var rest := Split(s[1..], ',');
    var whole := Split(s, ',');
    assert whole == [""] + rest;
    assert whole[0] == "" && whole[1..] == rest;
    assert "" + rest[0] == rest[0];
    assert current + whole[0] == current;
    AppendHead(fields + [current], rest);
  }

  /** The step of `ScanUnquoted` for any other character: it is appended to the current value. */
  lemma UnquotedOther(s: string, current: string, fields: seq<string>)
    requires |s| > 0 && s[0] != ',' && s[0] != '"'
    requires ScanLine(s[1..], false, current + [s[0]], fields)
          == fields + [current + [s[0]] + Split(s[1..], ',')[0]] + Split(s[1..], ',')[1..]
    ensures ScanLine(s, false, current, fields)
         == fields + [current + Split(s, ',')[0]] + Split(s, ',')[1..]
  {
    var rest := Split(s[1..], ',');
    var whole := Split(s, ',');
    assert whole == [[s[0]] + rest[0]] + rest[1..];
    AppendAssoc(current, [s[0]], rest[0]);
  }

  /** A line without quote characters tokenizes exactly like `line.split(",")`. */
  lemma UnquotedLineIsSplit(line: string)
    requires '"' !in line
    ensures TokenizeLine(line) == Split(line, ',')
    ensures |TokenizeLine(line)| == 1 + Occurrences(line, ',')
  {
    ScanUnquoted(line, "", []);
    var r := Split(line, ',');
    assert "" + r[0] == r[0];
    assert r == [r[0]] + r[1..];
  }

  /** Plain-field round trip: fields free of `,` and `"` survive `join(",")` followed by tokenizing. */
  lemma PlainFieldsRoundTrip(fields: seq<string>)
    requires |fields| >= 1
    requires forall i :: 0 <= i < |fields| ==> ',' !in fields[i] && '"' !in fields[i]
    ensures TokenizeLine(JoinWith(fields, ",")) == fields
  {
    JoinAvoids(fields, ",", '"');
    UnquotedLineIsSplit(JoinWith(fields, ","));
    SplitJoin(fields, ',');
  }

  /** A stretch with neither commas nor quotes is appended to the current value, in either quote state. */
  lemma {:induction false} ScanPlainStretch(s: string, rest: string, inQuotes: bool, current: string, fields: seq<string>)
    requires ',' !in s && '"' !in s
    ensures ScanLine(s + rest, inQuotes, current, fields) == ScanLine(rest, inQuotes, current + s, fields)
  {
    if |s| == 0 {
      assert s + rest == rest && current + s == current;
    } else {
      assert (s + rest)[1..] == s[1..] + rest;
      assert ',' !in s[1..] && '"' !in s[1..] by { assert forall c :: c in s[1..] ==> c in s; }
      ScanPlainStretch(s[1..], rest, inQuotes, current + [s[0]], fields);
      assert current + [s[0]] + s[1..] == current + s;
    }
  }

  /** Inside quotes, a quote-free remainder of the line, commas included, becomes part of the last field. */
  lemma {:induction false} ScanQuotedToEnd(s: string, current: string, fields: seq<string>)
    requires '"' !in s
    ensures ScanLine(s, true, current, fields) == fields + [current + s]
  {
    if |s| == 0 {
      assert current + s == current;
    } else {
      assert '"' !in s[1..] by { assert forall c :: c in s[1..] ==> c in s; }
      ScanQuotedToEnd(s[1..], current + [s[0]], fields);
      assert current + [s[0]] + s[1..] == current + s;
    }
  }

  // ---------------------------------------------------------------------
  // Quoted fields (RFC 4180 section 2, rules 6 and 7)
  // ---------------------------------------------------------------------

  /** Doubles every quote character of `f`. */
  function Escape(f: string): (e: string)
    ensures |e| == |f| + Occurrences(f, '"')
  {
    if |f| == 0 then ""
    else if f[0] == '"' then "\"\"" + Escape(f[1..])
    else [f[0]] + Escape(f[1..])
  }

  /** Writes `f` as a quoted field: `"`, the escaped value, `"`. */
  function Quote(f: string): string
  {
    "\"" + Escape(f) + "\""
  }

  /**
   * Inside quotes, an escaped value followed by a closing quote that is not
   * itself followed by a quote yields the value and leaves quoted mode.
   */
  lemma {:induction false} ScanEscaped(f: string, rest: string, current: string, fields: seq<string>)
    requires |rest| == 0 || rest[0] != '"'
    ensures ScanLine(Escape(f) + "\"" + rest, true, current, fields)
         == ScanLine(rest, false, current + f, fields)
  {
    if |f| == 0 {
      var s := Escape(f) + "\"" + rest;
      assert s == "\"" + rest;
      assert s[1..] == rest;
      assert current + f == current;
    } else {
      EscapedStep(f, rest, current, fields);
      ScanEscaped(f[1..], rest, current + [f[0]], fields);
      AppendHead(current, f);
    }
  }

  /** One step of `ScanEscaped`: the first character of the value, escaped or not, is appended. */
  lemma EscapedStep(f: string, rest: string, current: string, fields: seq<string>)
    requires |f| > 0
    ensures ScanLine(Escape(f) + "\"" + rest, true, current, fields)
         == ScanLine(Escape(f[1..]) + "\"" + rest, true, current + [f[0]], fields)
  {
    var s := Escape(f) + "\"" + rest;
    var t := Escape(f[1..]) + "\"" + rest;
    if f[0] == '"' {
      assert s == "\"\"" + t;
      assert s[2..] == t;
    } else {
      assert s == [f[0]] + t;
      assert s[1..] == t;
    }
  }

  /** Maps `Quote` over a sequence of fields. */
  function QuoteAll(fields: seq<string>): (q: seq<string>)
    ensures |q| == |fields|
    ensures forall i :: 0 <= i < |fields| ==> q[i] == Quote(fields[i])
  {
    seq(|fields|, i requires 0 <= i < |fields| => Quote(fields[i]))
  }

  lemma {:induction false} ScanQuotedFields(fields: seq<string>, done: seq<string>)
    requires |fields| >= 1
    ensures ScanLine(JoinWith(QuoteAll(fields), ","), false, "", done) == done + fields
  {
    if |fields| == 1 {
      ScanQuotedLast(fields[0], done);
      ScanQuotedSingle(fields);
    } else {
      ScanQuotedStep(fields, done);
      ScanQuotedFields(fields[1..], done + [fields[0]]);
      AppendHead(done, fields);
    }
  }

  lemma ScanQuotedSingle(fields: seq<string>)
    requires |fields| == 1
    ensures JoinWith(QuoteAll(fields), ",") == Quote(fields[0])
    ensures fields == [fields[0]]
  {
  }

  /** The last quoted field of a line closes and is pushed. */
  lemma ScanQuotedLast(f: string, done: seq<string>)
    ensures ScanLine(Quote(f), false, "", done) == done + [f]
  {
    var s := Quote(f);
    assert s == "\"" + (Escape(f) + "\"" + "");
    assert s[1..] == Escape(f) + "\"" + "";
    ScanEscaped(f, "", "", done);
    assert "" + f == f;
  }

  /** A quoted field followed by a comma closes, is pushed, and scanning resumes after the comma. */
  lemma ScanQuotedStep(fields: seq<string>, done: seq<string>)
    requires |fields| >= 2
    ensures ScanLine(JoinWith(QuoteAll(fields), ","), false, "", done)
         == ScanLine(JoinWith(QuoteAll(fields[1..]), ","), false, "", done + [fields[0]])
  {
    var q := QuoteAll(fields);
    var f := fields[0];
    var tail := JoinWith(QuoteAll(fields[1..]), ",");
    assert q[1..] == QuoteAll(fields[1..]);
    var s := JoinWith(q, ",");
    assert s == "\"" + (Escape(f) + "\"" + ("," + tail));
    assert s[1..] == Escape(f) + "\"" + ("," + tail);
    ScanEscaped(f, "," + tail, "", done);
    assert ("," + tail)[1..] == tail;
    assert "" + f == f;
  }

  /**
   * Quoted round trip: any fields at all, commas and quotes included, written
   * as quoted fields joined by commas, tokenize back to themselves.
   */
  lemma QuotedFieldsRoundTrip(fields: seq<string>)
    requires |fields| >= 1
    ensures TokenizeLine(JoinWith(QuoteAll(fields), ",")) == fields
  {
    ScanQuotedFields(fields, []);
  }

  /** `"a,b"` is the single field `a,b`. */
  lemma QuotedCommaExample()
    ensures TokenizeLine("\"a,b\"") == ["a,b"]
  {
    assert Escape("a,b") == "a,b";
    assert JoinWith(QuoteAll(["a,b"]), ",") == "\"a,b\"";
    QuotedFieldsRoundTrip(["a,b"]);
  }

  /** `"a""b"` is the single field `a"b`. */
  lemma EscapedQuoteExample()
    ensures TokenizeLine("\"a\"\"b\"") == ["a\"b"]
  {
    assert Escape("b") == "b";
    assert Escape("\"b") == "\"\"b";
    assert Escape("a\"b") == "a\"\"b";
    assert JoinWith(QuoteAll(["a\"b"]), ",") == "\"a\"\"b\"";
    QuotedFieldsRoundTrip(["a\"b"]);
  }

  /**
   * A lone quote in the middle of a field opens quoted mode and is dropped:
   * every later comma on the line is literal.
   */
  lemma LoneQuote(a: string, b: string)
    requires ',' !in a && '"' !in a && '"' !in b
    ensures TokenizeLine(a + "\"" + b) == [a + b]
  {
    ScanPlainStretch(a, "\"" + b, false, "", []);
    assert a + "\"" + b == a + ("\"" + b);
    assert ("\"" + b)[1..] == b;
    ScanQuotedToEnd(b, "" + a, []);
    assert "" + a == a;
  }

  /** Quotes in the middle of a field just toggle the state: `ab"c,d"e` is the single field `abc,de`. */
  lemma MidFieldQuotes(a: string, b: string, c: string)
    requires ',' !in a && '"' !in a && '"' !in b && ',' !in c && '"' !in c
    ensures TokenizeLine(a + "\"" + b + "\"" + c) == [a + b + c]
  {
    var line := a + "\"" + b + "\"" + c;
    var x := b + "\"" + c;
    assert line == a + ("\"" + x);
    ScanPlainStretch(a, "\"" + x, false, "", []);
    assert "" + a == a;
    assert ("\"" + x)[1..] == x;
    EscapeQuoteFree(b);
    if |c| > 0 { assert c[0] in c; }
    ScanEscaped(b, c, a, []);
    assert c + "" == c;
    ScanPlainStretch(c, "", false, a + b, []);
  }

  /** Escaping leaves a quote-free value unchanged. */
  lemma {:induction false} EscapeQuoteFree(f: string)
    requires '"' !in f
    ensures Escape(f) == f
  {
    if |f| > 0 {
      assert '"' !in f[1..] by { assert forall c :: c in f[1..] ==> c in f; }
      EscapeQuoteFree(f[1..]);
      assert f == [f[0]] + f[1..];
    }
  }

  // ---------------------------------------------------------------------
  // Rows and lines
  // ---------------------------------------------------------------------

  /** A character other than `"` that is not on the line cannot appear in any field of it. */
  lemma {:induction false} ScanAvoids(c: char, s: string, inQuotes: bool, current: string, fields: seq<string>)
    requires c != '"' && c !in s && c !in current
    requires forall i :: 0 <= i < |fields| ==> c !in fields[i]
    ensures forall i :: 0 <= i < |ScanLine(s, inQuotes, current, fields)| ==> c !in ScanLine(s, inQuotes, current, fields)[i]
  {
    if |s| > 0 {
      assert c !in s[1..] by { assert forall x :: x in s[1..] ==> x in s; }
      if s[0] == '"' {
        if inQuotes && |s| >= 2 && s[1] == '"' {
          assert c !in s[2..] by { assert forall x :: x in s[2..] ==> x in s; }
          ScanAvoids(c, s[2..], true, current + ['"'], fields);
        } else {
          ScanAvoids(c, s[1..], !inQuotes, current, fields);
        }
      } else if s[0] == ',' && !inQuotes {
        ScanAvoids(c, s[1..], false, "", fields + [current]);
      } else {
        ScanAvoids(c, s[1..], inQuotes, current + [s[0]], fields);
      }
    }
  }

  /** No two adjacent characters of `s` are both quotes: `s` holds no `""` pair. */
  predicate NoDoubledQuote(s: string) {
    forall i :: 0 <= i < |s| - 1 ==> !(s[i] == '"' && s[i + 1] == '"')
  }

  /**
   * Without a `""` pair, every quote of the scanned text toggles the quote
   * state and is dropped: no field the scan produces holds a quote.
   */
  lemma {:induction false} ScanDropsQuotes(s: string, inQuotes: bool, current: string, fields: seq<string>)
    requires NoDoubledQuote(s) && '"' !in current
    requires forall i :: 0 <= i < |fields| ==> '"' !in fields[i]
    ensures forall i :: 0 <= i < |ScanLine(s, inQuotes, current, fields)| ==> '"' !in ScanLine(s, inQuotes, current, fields)[i]
  {
    if |s| > 0 {
      assert NoDoubledQuote(s[1..]) by {
        forall i | 0 <= i < |s[1..]| - 1 ensures !(s[1..][i] == '"' && s[1..][i + 1] == '"') {
          assert s[1..][i] == s[i + 1] && s[1..][i + 1] == s[i + 2];
        }
      }
      if s[0] == '"' {
        assert !(|s| >= 2 && s[1] == '"') by {
          if |s| >= 2 {
            assert !(s[0] == '"' && s[1] == '"');
          }
        }
        ScanDropsQuotes(s[1..], !inQuotes, current, fields);
      } else if s[0] == ',' && !inQuotes {
        ScanDropsQuotes(s[1..], false, "", fields + [current]);
      } else {
        ScanDropsQuotes(s[1..], inQuotes, current + [s[0]], fields);
      }
    }
  }

  /**
   * A quote anywhere in a line, unless doubled, only toggles the quote state
   * and never reaches a field; only a `""` pair inside quotes can put a quote
   * into a field.
   */
  lemma LoneQuotesDropped(line: string)
    requires NoDoubledQuote(line)
    ensures forall i :: 0 <= i < |TokenizeLine(line)| ==> '"' !in TokenizeLine(line)[i]
  {
    ScanDropsQuotes(line, false, "", []);
  }

  /**
   * Row count and shape: one row per non-blank line, each row non-empty,
   * and no field containing a line break.
   */
  lemma RowsShape(text: string)
    ensures |TokenizeRows(text)| == |NonBlank(Lines(text))|
    ensures forall i :: 0 <= i < |TokenizeRows(text)| ==> |TokenizeRows(text)[i]| >= 1
    ensures forall i, j :: 0 <= i < |TokenizeRows(text)| && 0 <= j < |TokenizeRows(text)[i]| ==>
              '\n' !in TokenizeRows(text)[i][j]
  {
    var lines := NonBlank(Lines(text));
    var rows := TokenizeRows(text);
    forall i, j | 0 <= i < |rows| && 0 <= j < |rows[i]|
      ensures '\n' !in rows[i][j]
    {
      NonBlankMembers(Lines(text));
      assert lines[i] in lines;
      ScanAvoids('\n', lines[i], false, "", []);
    }
  }

  /** Blank-line filtering distributes over concatenation. */
  lemma {:induction false} NonBlankConcat(xs: seq<string>, ys: seq<string>)
    ensures NonBlank(xs + ys) == NonBlank(xs) + NonBlank(ys)
  {
    if |ys| == 0 {
      assert xs + ys == xs;
    } else {
      var init := ys[..|ys| - 1];
      var last := ys[|ys| - 1];
      var extra := if IsBlank(last) then [] else [last];
      assert (xs + ys)[..|xs + ys| - 1] == xs + init;
      assert (xs + ys)[|xs + ys| - 1] == last;
      assert NonBlank(xs + ys) == NonBlank(xs + init) + extra;
      assert NonBlank(ys) == NonBlank(init) + extra;
      NonBlankConcat(xs, init);
      AppendAssoc(NonBlank(xs), NonBlank(init), extra);
    }
  }

  /**
   * An unclosed quote on one line does not leak into the next: a line that
   * opens a quote and never closes it is one field, and the lines after it
   * tokenize exactly as they would on their own.
   */
  lemma QuoteStateResetsPerLine(a: string, rest: seq<string>)
    requires '"' !in a && PlainLine("\"" + a)
    requires forall i :: 0 <= i < |rest| ==> PlainLine(rest[i])
    ensures TokenizeRows(JoinWith(["\"" + a] + rest, "\n")) == [[a]] + MapTokenize(NonBlank(rest))
  {
    var first := "\"" + a;
    assert !IsBlank(first) by { assert !IsWhitespace(first[0]); }
    LeadingLine(first, rest);
    OpenQuoteLine(a);
  }

  /** A line that opens a quote and never closes it is a single field, the quote dropped. */
  lemma OpenQuoteLine(a: string)
    requires '"' !in a
    ensures TokenizeLine("\"" + a) == [a]
  {
    var line := "\"" + a;
    assert line[0] == '"' && line[1..] == a;
    assert ScanLine(line, false, "", []) == ScanLine(a, true, "", []);
    ScanQuotedToEnd(a, "", []);
    assert "" + a == a;
  }

  /** A non-blank first line contributes its own row, ahead of the rows of the lines after it. */
  lemma LeadingLine(first: string, rest: seq<string>)
    requires PlainLine(first) && !IsBlank(first)
    requires forall i :: 0 <= i < |rest| ==> PlainLine(rest[i])
    ensures TokenizeRows(JoinWith([first] + rest, "\n")) == [TokenizeLine(first)] + MapTokenize(NonBlank(rest))
  {
    var lines := [first] + rest;
    assert forall i :: 0 <= i < |lines| ==> PlainLine(lines[i]) by {
      forall i | 0 <= i < |lines| ensures PlainLine(lines[i]) {
        if i > 0 { assert lines[i] == rest[i - 1]; }
      }
    }
    LfRows(lines);
    var nb := NonBlank(rest);
    NonBlankSingle(first);
    NonBlankConcat([first], rest);
    assert NonBlank(lines) == [first] + nb;
    MapTokenizeConcat([first], nb);
    MapTokenizeSingle(first);
  }

  lemma MapTokenizeSingle(line: string)
    ensures MapTokenize([line]) == [TokenizeLine(line)]
  {
  }

  lemma NonBlankSingle(l: string)
    requires !IsBlank(l)
    ensures NonBlank([l]) == [l]
  {
    assert [l][..0] == [];
  }

  /** Tokenizing lines one by one distributes over concatenation. */
  lemma MapTokenizeConcat(xs: seq<string>, ys: seq<string>)
    ensures MapTokenize(xs + ys) == MapTokenize(xs) + MapTokenize(ys)
  {
    var l := MapTokenize(xs + ys);
    var r := MapTokenize(xs) + MapTokenize(ys);
    forall i | 0 <= i < |l| ensures l[i] == r[i] {
      if i < |xs| { assert (xs + ys)[i] == xs[i]; } else { assert (xs + ys)[i] == ys[i - |xs|]; }
    }
  }

  // ---------------------------------------------------------------------
  // Line endings
  // ---------------------------------------------------------------------

  /** A line that the two terminator conventions split the same way: no LF inside and no trailing CR. */
  predicate PlainLine(l: string) {
    '\n' !in l && (|l| == 0 || l[|l| - 1] != '\r')
  }

  /** Normalisation passes over an LF-free prefix unchanged, unless a CR ending it meets an LF. */
  lemma {:induction false} NormalizeFreePrefix(a: string, t: string)
    requires '\n' !in a
    requires |a| == 0 || a[|a| - 1] != '\r' || |t| == 0 || t[0] != '\n'
    ensures NormalizeLineEndings(a + t) == a + NormalizeLineEndings(t)
    decreases |a|
  {
    if |a| == 0 {
      assert a + t == t;
    } else {
      NormalizeFirst(a, t);
      NormalizeFreePrefix(a[1..], t);
      HeadAppend(a, NormalizeLineEndings(t));
    }
  }

  /** One step of `NormalizeFreePrefix`: the first character of an LF-free prefix is copied. */
  lemma NormalizeFirst(a: string, t: string)
    requires |a| > 0 && '\n' !in a
    requires a[|a| - 1] != '\r' || |t| == 0 || t[0] != '\n'
    ensures '\n' !in a[1..]
    ensures |a[1..]| == 0 || a[|a| - 1] == a[1..][|a[1..]| - 1]
    ensures NormalizeLineEndings(a + t) == [a[0]] + NormalizeLineEndings(a[1..] + t)
  {
    var s := a + t;
    assert s[1..] == a[1..] + t;
    assert forall x :: x in a[1..] ==> x in a;
    if |a| >= 2 {
      assert s[1] == a[1] && a[1] in a;
    }
  }

  /** A plain line followed by either terminator normalises to the line followed by LF. */
  lemma NormalizeTerminated(a: string, sep: string, rest: string)
    requires sep == "\r\n" || sep == "\n"
    requires PlainLine(a)
    ensures NormalizeLineEndings(a + sep + rest) == a + "\n" + NormalizeLineEndings(rest)
  {
    var t := sep + rest;
    NormalizeTerminator(sep, rest);
    NormalizeFreePrefix(a, t);
    AppendAssoc(a, sep, rest);
    AppendAssoc(a, "\n", NormalizeLineEndings(rest));
  }

  lemma NormalizeTerminator(sep: string, rest: string)
    requires sep == "\r\n" || sep == "\n"
    ensures NormalizeLineEndings(sep + rest) == "\n" + NormalizeLineEndings(rest)
  {
    var t := sep + rest;
    if sep == "\r\n" {
      assert |t| >= 2 && t[0] == '\r' && t[1] == '\n';
      assert t[2..] == rest;
    } else {
      assert t[0] == '\n';
      assert t[1..] == rest;
    }
  }

  /** Joining plain lines with CRLF or with LF normalises to the LF join. */
  lemma {:induction false} NormalizeJoin(lines: seq<string>, sep: string)
    requires sep == "\r\n" || sep == "\n"
    requires forall i :: 0 <= i < |lines| ==> PlainLine(lines[i])
    ensures NormalizeLineEndings(JoinWith(lines, sep)) == JoinWith(lines, "\n")
  {
    if |lines| == 1 {
      NormalizeFreePrefix(lines[0], "");
      assert lines[0] + "" == lines[0];
    } else if |lines| > 1 {
      var rest := JoinWith(lines[1..], sep);
      NormalizeJoin(lines[1..], sep);
      NormalizeTerminated(lines[0], sep, rest);
    }
  }

  /**
   * Line endings: text whose lines end in CRLF gives exactly the rows of the
   * same text with LF endings, namely the tokenized non-blank lines.
   */
  lemma CrlfSameAsLf(lines: seq<string>)
    requires |lines| >= 1
    requires forall i :: 0 <= i < |lines| ==> PlainLine(lines[i])
    ensures TokenizeRows(JoinWith(lines, "\r\n")) == TokenizeRows(JoinWith(lines, "\n"))
    ensures TokenizeRows(JoinWith(lines, "\n")) == MapTokenize(NonBlank(lines))
  {
    var crlf := JoinWith(lines, "\r\n");
    var lf := JoinWith(lines, "\n");
    NormalizeJoin(lines, "\r\n");
    LfRows(lines);
    assert Lines(crlf) == Split(lf, '\n') == Lines(lf);
  }

  /** Text made of plain lines joined by LF yields exactly the tokenized non-blank lines. */
  lemma LfRows(lines: seq<string>)
    requires |lines| >= 1
    requires forall i :: 0 <= i < |lines| ==> PlainLine(lines[i])
    ensures NormalizeLineEndings(JoinWith(lines, "\n")) == JoinWith(lines, "\n")
    ensures Lines(JoinWith(lines, "\n")) == lines
    ensures TokenizeRows(JoinWith(lines, "\n")) == MapTokenize(NonBlank(lines))
  {
    NormalizeJoin(lines, "\n");
    SplitJoin(lines, '\n');
  }

  // ---------------------------------------------------------------------
  // Progress
  // ---------------------------------------------------------------------

  /** Fractions of a fixed total are non-negative and strictly monotone in the index. */
  lemma FractionMonotone(a: nat, b: nat, total: nat)
    requires total > 0 && a < b
    ensures 0.0 <= Fraction(a, total) < Fraction(b, total)
  {
    var n := total as real;
    assert Fraction(b, total) - Fraction(a, total) == (b - a) as real / n;
  }

  /** Progress after visiting the first `i` lines is strictly increasing and lies in [0, i / total). */
  lemma {:induction false} ProgressIncreasing(lines: seq<string>, i: nat)
    requires i <= |lines|
    ensures forall k :: 0 <= k < |ProgressUpTo(lines, i)| ==>
              0.0 <= ProgressUpTo(lines, i)[k] < Fraction(i, |lines|)
    ensures forall k, m :: 0 <= k < m < |ProgressUpTo(lines, i)| ==>
              ProgressUpTo(lines, i)[k] < ProgressUpTo(lines, i)[m]
  {
    if i > 0 {
      ProgressIncreasing(lines, i - 1);
      var prev := ProgressUpTo(lines, i - 1);
      FractionMonotone(i - 1, i, |lines|);
      var p := ProgressUpTo(lines, i);
      if Reported(lines, i - 1) {
        assert p == prev + [Fraction(i - 1, |lines|)];
        forall k | 0 <= k < |p|
          ensures 0.0 <= p[k] < Fraction(i, |lines|)
        {
          if k < |prev| { assert p[k] == prev[k]; }
        }
        forall k, m | 0 <= k < m < |p|
          ensures p[k] < p[m]
        {
          assert p[k] == prev[k];
        }
      } else {
        assert p == prev;
      }
    }
  }

  /** `v` is the progress fraction of a reporting line below `i`. */
  predicate ReportedBefore(lines: seq<string>, i: nat, v: real)
    requires i <= |lines|
  {
    exists j :: 0 <= j < i && Reported(lines, j) && v == Fraction(j, |lines|)
  }

  /** Progress after visiting the first `i` lines holds exactly the fractions of the reporting lines below `i`. */
  lemma ProgressExactlyReported(lines: seq<string>, i: nat)
    requires i <= |lines|
    ensures forall k :: 0 <= k < |ProgressUpTo(lines, i)| ==> ReportedBefore(lines, i, ProgressUpTo(lines, i)[k])
    ensures forall j :: 0 <= j < i && Reported(lines, j) ==> Fraction(j, |lines|) in ProgressUpTo(lines, i)
  {
    ProgressSound(lines, i);
    ProgressComplete(lines, i);
  }

  /** Every progress value so far is the fraction of a reporting line already visited. */
  lemma {:induction false} ProgressSound(lines: seq<string>, i: nat)
    requires i <= |lines|
    ensures forall k :: 0 <= k < |ProgressUpTo(lines, i)| ==> ReportedBefore(lines, i, ProgressUpTo(lines, i)[k])
  {
    if i > 0 {
      ProgressSound(lines, i - 1);
      var prev := ProgressUpTo(lines, i - 1);
      var p := ProgressUpTo(lines, i);
      assert p == prev + (if Reported(lines, i - 1) then [Fraction(i - 1, |lines|)] else []);
      forall k | 0 <= k < |p| ensures ReportedBefore(lines, i, p[k]) {
        if k < |prev| {
          assert p[k] == prev[k] && ReportedBefore(lines, i - 1, prev[k]);
          var j :| 0 <= j < i - 1 && Reported(lines, j) && prev[k] == Fraction(j, |lines|);
        } else {
          assert Reported(lines, i - 1) && p[k] == Fraction(i - 1, |lines|);
        }
      }
    }
  }

  /** Every reporting line already visited has its fraction among the progress values. */
  lemma {:induction false} ProgressComplete(lines: seq<string>, i: nat)
    requires i <= |lines|
    ensures forall j :: 0 <= j < i && Reported(lines, j) ==> Fraction(j, |lines|) in ProgressUpTo(lines, i)
  {
    if i > 0 {
      ProgressComplete(lines, i - 1);
      var prev := ProgressUpTo(lines, i - 1);
      var p := ProgressUpTo(lines, i);
      assert p == prev + (if Reported(lines, i - 1) then [Fraction(i - 1, |lines|)] else []);
      forall j | 0 <= j < i && Reported(lines, j) ensures Fraction(j, |lines|) in p {
        if j < i - 1 {
          assert Fraction(j, |lines|) in prev;
        } else {
          assert p[|prev|] == Fraction(j, |lines|);
        }
      }
    }
  }

  /** The progress reported for a whole text lies in [0, 1) and strictly increases. */
  lemma ProgressBounds(text: string)
    ensures forall k :: 0 <= k < |ProgressReports(text)| ==> 0.0 <= ProgressReports(text)[k] < 1.0
    ensures forall k, m :: 0 <= k < m < |ProgressReports(text)| ==> ProgressReports(text)[k] < ProgressReports(text)[m]
  {
    var lines := Lines(text);
    ProgressIncreasing(lines, |lines|);
    WholeFraction(|lines|);
  }

  lemma WholeFraction(n: nat)
    requires n > 0
    ensures Fraction(n, n) == 1.0
  {
  }
}
