/**
 * The per-line logic of loading an edge file: trim the line, skip it when
 * it starts with `#`, otherwise split it at whitespace into exactly two
 * fields, parse each as a `u128` and range-check it into the id width.
 * Reading the file itself is outside the model; a file is its sequence of
 * lines.
 */
module EdgeParse {
  import opened Wrappers
  import opened Adjacency

  /** Why a line is rejected; the source panics with a message for each. */
  datatype LoadError =
    | MissingFirstField   // "Invalid line (first field)"
    | MissingSecondField  // "Invalid line (second field)"
    | ExtraFields         // "Invalid line (extra fields)"
    | InvalidInteger      // `parse::<u128>()` failed
    | VertexOutOfRange    // `T::from(u128)` failed

  /** `char::is_whitespace`: the Unicode White_Space property. */
  predicate IsWhitespace(c: char)
  {
    ('\t' <= c <= '\r') || c == ' ' || c == '\U{85}' || c == '\U{A0}' || c == '\U{1680}' ||
    ('\U{2000}' <= c <= '\U{200A}') || c == '\U{2028}' || c == '\U{2029}' ||
    c == '\U{202F}' || c == '\U{205F}' || c == '\U{3000}'
  }

  ghost predicate AllWhitespace(s: string)
  {
    forall i :: 0 <= i < |s| ==> IsWhitespace(s[i])
  }

  ghost predicate NoWhitespace(s: string)
  {
    forall i :: 0 <= i < |s| ==> !IsWhitespace(s[i])
  }

  /** `str::trim_start`: drops the leading whitespace. */
  function TrimStart(s: string): string
  {
    if s != [] && IsWhitespace(s[0]) then TrimStart(s[1..]) else s
  }

  /** `str::trim_end`: drops the trailing whitespace. */
  function TrimEnd(s: string): string
  {
    if s != [] && IsWhitespace(s[|s| - 1]) then TrimEnd(s[..|s| - 1]) else s
  }

  /** `str::trim`. */
  function Trim(s: string): string
  {
    TrimEnd(TrimStart(s))
  }

  /** The length of the longest whitespace-free prefix of `s`. */
  function TokenEnd(s: string): (t: nat)
    ensures t <= |s|
  {
    if s == [] || IsWhitespace(s[0]) then 0 else 1 + TokenEnd(s[1..])
  }

  /** `str::split_whitespace`: the maximal whitespace-free runs of `s`, in order. */
  function Fields(s: string): seq<string>
    decreases |s|
  {
    if s == [] then []
    else if IsWhitespace(s[0]) then Fields(s[1..])
    else
      var t := TokenEnd(s);
      [s[..t]] + Fields(s[t..])
  }

  /** Fields joined by single spaces. */
  function Unwords(fs: seq<string>): string
  {
    if fs == [] then [] else if |fs| == 1 then fs[0] else fs[0] + " " + Unwords(fs[1..])
  }

  predicate IsDigit(c: char)
  {
    '0' <= c <= '9'
  }

  predicate AllDigits(s: string)
  {
    forall i :: 0 <= i < |s| ==> IsDigit(s[i])
  }

  /** The value of a string of decimal digits. */
  function DecimalValue(s: string): nat
    requires AllDigits(s)
  {
    if s == [] then 0 else DecimalValue(s[..|s| - 1]) * 10 + (s[|s| - 1] as int - '0' as int)
  }

  const U128_LIMIT: nat := 0x1_0000_0000_0000_0000_0000_0000_0000_0000

  /**
   * `str::parse::<u128>`: an optional `+`, then one or more ASCII digits
   * whose value is below 2^128.
   */
  function ParseU128(s: string): Option<nat>
  {
    var digits := if s != [] && s[0] == '+' then s[1..] else s;
    if digits != [] && AllDigits(digits) && DecimalValue(digits) < U128_LIMIT
    then Some(DecimalValue(digits))
    else None
  }

  /** The decimal numeral of `n`, without sign or leading zeros. */
  function Decimal(n: nat): (s: string)
    ensures s != [] && AllDigits(s)
    ensures DecimalValue(s) == n
  {
    var d := [('0' as int + n % 10) as char];
    if n < 10 then d
    else
      var s := Decimal(n / 10) + d;
      assert s[..|s| - 1] == Decimal(n / 10);
      s
  }

  /** Parsing a numeral gives back its value. */
  lemma ParseDecimal(n: nat)
    requires n < U128_LIMIT
    ensures ParseU128(Decimal(n)) == Some(n)
    ensures ParseU128("+" + Decimal(n)) == Some(n)
  {
    assert ("+" + Decimal(n))[1..] == Decimal(n);
  }

  /** The empty string, a lone `+`, and any string with a character other than a digit or a leading `+` fail to parse; a parsed value is below 2^128. */
  lemma ParseU128Rejects(s: string)
    ensures ParseU128([]) == None && ParseU128("+") == None
    ensures (exists i :: 0 <= i < |s| && !IsDigit(s[i]) && (i > 0 || s[i] != '+')) ==> ParseU128(s) == None
    ensures ParseU128(s).Some? ==> ParseU128(s).value < U128_LIMIT
  {
    assert "+"[1..] == [];
    if exists i :: 0 <= i < |s| && !IsDigit(s[i]) && (i > 0 || s[i] != '+') {
      var i :| 0 <= i < |s| && !IsDigit(s[i]) && (i > 0 || s[i] != '+');
      if s[0] == '+' {
        assert s[1..][i - 1] == s[i];
      }
    }
  }

  lemma {:induction false} DecimalValueLeadingZero(d: string)
    requires AllDigits(d)
    ensures AllDigits("0" + d) && DecimalValue("0" + d) == DecimalValue(d)
    decreases |d|
  {
    var z := "0" + d;
    assert AllDigits(z) by {
      forall i | 0 <= i < |z|
        ensures IsDigit(z[i])
      {
        if i > 0 {
          assert z[i] == d[i - 1];
        }
      }
    }
    if d == [] {
      assert z[..0] == [];
    } else {
      var init := d[..|d| - 1];
      assert z[..|z| - 1] == "0" + init;
      DecimalValueLeadingZero(init);
    }
  }

  /** Leading zeros do not change the parsed value. */
  lemma ParseLeadingZero(d: string)
    requires d != [] && AllDigits(d)
    ensures ParseU128("0" + d) == ParseU128(d)
  {
    DecimalValueLeadingZero(d);
  }

  /** `TrimStart` drops a whitespace-only prefix and stops at the first other character. */
  lemma {:induction false} TrimStartSpec(s: string)
    ensures |TrimStart(s)| <= |s| && TrimStart(s) == s[|s| - |TrimStart(s)|..]
    ensures AllWhitespace(s[..|s| - |TrimStart(s)|])
    ensures TrimStart(s) == [] || !IsWhitespace(TrimStart(s)[0])
    decreases |s|
  {
    if s != [] && IsWhitespace(s[0]) {
      TrimStartSpec(s[1..]);
      var r := TrimStart(s);
      var dropped := s[..|s| - |r|];
      assert dropped == [s[0]] + s[1..][..|s| - 1 - |r|];
      forall i | 0 <= i < |dropped|
        ensures IsWhitespace(dropped[i])
      {
        if i > 0 {
          assert dropped[i] == s[1..][..|s| - 1 - |r|][i - 1];
        }
      }
    }
  }

  /** `TrimEnd` drops a whitespace-only suffix and stops at the last other character. */
  lemma {:induction false} TrimEndSpec(s: string)
    ensures |TrimEnd(s)| <= |s| && TrimEnd(s) == s[..|TrimEnd(s)|]
    ensures AllWhitespace(s[|TrimEnd(s)|..])
    ensures TrimEnd(s) == [] || !IsWhitespace(TrimEnd(s)[|TrimEnd(s)| - 1])
    decreases |s|
  {
    if s != [] && IsWhitespace(s[|s| - 1]) {
      var init := s[..|s| - 1];
      TrimEndSpec(init);
      var r := TrimEnd(s);
      var dropped := s[|r|..];
      assert dropped == init[|r|..] + [s[|s| - 1]];
      forall i | 0 <= i < |dropped|
        ensures IsWhitespace(dropped[i])
      {
        if i < |dropped| - 1 {
          assert dropped[i] == init[|r|..][i];
        }
      }
    }
  }

  /** `TokenEnd` stops at the first whitespace character, or at the end. */
  lemma {:induction false} TokenEndSpec(s: string)
    ensures NoWhitespace(s[..TokenEnd(s)])
    ensures TokenEnd(s) == |s| || IsWhitespace(s[TokenEnd(s)])
    decreases |s|
  {
    if s != [] && !IsWhitespace(s[0]) {
      TokenEndSpec(s[1..]);
      var t := TokenEnd(s);
      assert s[..t] == [s[0]] + s[1..][..t - 1];
    }
  }

  /** Every field is non-empty and free of whitespace. */
  lemma {:induction false} FieldsSpec(s: string)
    ensures forall i :: 0 <= i < |Fields(s)| ==> Fields(s)[i] != [] && NoWhitespace(Fields(s)[i])
    decreases |s|
  {
    if s != [] {
      if IsWhitespace(s[0]) {
        FieldsSpec(s[1..]);
      } else {
        var t := TokenEnd(s);
        TokenEndSpec(s);
        FieldsSpec(s[t..]);
      }
    }
  }

  /** A line is a comment when its trimmed text starts with `#`. */
  predicate IsComment(line: string)
  {
    var l := Trim(line);
    |l| > 0 && l[0] == '#'
  }

  /**
   * One line of an edge file: `Ok(None)` for a comment, `Ok(Some(e))` for
   * an edge, `Err` for the first check that fails, in the source's order:
   * field count, then both fields parse, then both fit the id width.
   */
  function ParseLine(line: string, maxValue: nat): Result<Option<Edge>, LoadError>
  {
    var l := Trim(line);
    if |l| > 0 && l[0] == '#' then Ok(None)
    else
      var fs := Fields(l);
      if |fs| == 0 then Err(MissingFirstField)
      else if |fs| == 1 then Err(MissingSecondField)
      else if |fs| > 2 then Err(ExtraFields)
      else
        var src128, dst128 := ParseU128(fs[0]), ParseU128(fs[1]);
        if src128.None? || dst128.None? then Err(InvalidInteger)
        else if src128.value > maxValue || dst128.value > maxValue then Err(VertexOutOfRange)
        else Ok(Some(Edge(src128.value, dst128.value)))
  }

  /**
   * A line is skipped exactly when it is a comment, and yields an edge
   * exactly when it is not a comment and holds two fields that both parse
   * as `u128` values within the id width; the edge is those two values.
   */
  lemma ParseLineOutcomes(line: string, maxValue: nat)
    ensures ParseLine(line, maxValue) == Ok(None) <==> IsComment(line)
    ensures ParseLine(line, maxValue).Ok? && ParseLine(line, maxValue).value.Some? <==>
      !IsComment(line) && |Fields(Trim(line))| == 2 &&
      ParseU128(Fields(Trim(line))[0]).Some? && ParseU128(Fields(Trim(line))[0]).value <= maxValue &&
      ParseU128(Fields(Trim(line))[1]).Some? && ParseU128(Fields(Trim(line))[1]).value <= maxValue
    ensures ParseLine(line, maxValue).Ok? && ParseLine(line, maxValue).value.Some? ==>
      ParseLine(line, maxValue).value.value ==
        Edge(ParseU128(Fields(Trim(line))[0]).value, ParseU128(Fields(Trim(line))[1]).value)
  {
  }

  /** An edge written as a line of the file format. */
  function FormatEdge(e: Edge): string
  {
    Decimal(e.src) + " " + Decimal(e.dst)
  }

  /** A whitespace-only string has no fields. */
  lemma {:induction false} NoFieldsInWhitespace(s: string)
    requires AllWhitespace(s)
    ensures Fields(s) == []
    decreases |s|
  {
    if s != [] {
      NoFieldsInWhitespace(s[1..]);
    }
  }

  lemma {:induction false} TrimStartWhitespace(s: string)
    requires AllWhitespace(s)
    ensures TrimStart(s) == []
    decreases |s|
  {
    if s != [] {
      TrimStartWhitespace(s[1..]);
    }
  }

  /** A blank (or whitespace-only) line is not skipped: it fails for want of a first field. */
  lemma BlankLineRejected(line: string, maxValue: nat)
    requires AllWhitespace(line)
    ensures ParseLine(line, maxValue) == Err(MissingFirstField)
  {
    TrimStartWhitespace(line);
    NoFieldsInWhitespace([]);
  }

  /** A line whose trimmed text does not start with `#` and does not hold exactly two fields is rejected. */
  lemma WrongFieldCountRejected(line: string, maxValue: nat)
    requires !IsComment(line) && |Fields(Trim(line))| != 2
    ensures ParseLine(line, maxValue).Err?
    ensures ParseLine(line, maxValue).error ==
      if |Fields(Trim(line))| == 0 then MissingFirstField
      else if |Fields(Trim(line))| == 1 then MissingSecondField
      else ExtraFields
  {
  }

  lemma {:induction false} TokenEndOf(f: string, tail: string)
    requires NoWhitespace(f)
    requires tail == [] || IsWhitespace(tail[0])
    ensures TokenEnd(f + tail) == |f|
    decreases |f|
  {
    if f != [] {
      assert (f + tail)[1..] == f[1..] + tail;
      TokenEndOf(f[1..], tail);
    } else {
      assert f + tail == tail;
    }
  }

  /** Splitting space-joined fields gives the fields back. */
  lemma {:induction false} FieldsOfUnwords(fs: seq<string>)
    requires forall i :: 0 <= i < |fs| ==> fs[i] != [] && NoWhitespace(fs[i])
    ensures Fields(Unwords(fs)) == fs
    decreases |fs|
  {
    if |fs| == 1 {
      var f := fs[0];
      TokenEndOf(f, []);
      assert f + [] == f;
      assert f[..|f|] == f && f[|f|..] == [];
    } else if |fs| > 1 {
      var f, rest := fs[0], Unwords(fs[1..]);
      var s := f + " " + rest;
      assert s == f + (" " + rest);
      TokenEndOf(f, " " + rest);
      assert s[..|f|] == f;
      assert s[|f|..] == " " + rest;
      assert (" " + rest)[1..] == rest;
      FieldsOfUnwords(fs[1..]);
      assert fs == [f] + fs[1..];
    }
  }

  /** Leading whitespace contributes no field. */
  lemma {:induction false} FieldsSkipLeading(w: string, s: string)
    requires AllWhitespace(w)
    ensures Fields(w + s) == Fields(s)
    decreases |w|
  {
    if w != [] {
      assert (w + s)[1..] == w[1..] + s;
      FieldsSkipLeading(w[1..], s);
    } else {
      assert w + s == s;
    }
  }

  /** Trailing whitespace does not move the end of the first token. */
  lemma {:induction false} TokenEndAppend(x: string, w: string)
    requires AllWhitespace(w)
    ensures TokenEnd(x + w) == TokenEnd(x)
    decreases |x|
  {
    if x == [] {
      assert x + w == w;
    } else if !IsWhitespace(x[0]) {
      assert (x + w)[1..] == x[1..] + w;
      TokenEndAppend(x[1..], w);
    }
  }

  /** Trailing whitespace contributes no field. */
  lemma {:induction false} FieldsDropTrailing(x: string, w: string)
    requires AllWhitespace(w)
    ensures Fields(x + w) == Fields(x)
    decreases |x|
  {
    if x == [] {
      assert x + w == w;
      NoFieldsInWhitespace(w);
    } else if IsWhitespace(x[0]) {
      assert (x + w)[1..] == x[1..] + w;
      FieldsDropTrailing(x[1..], w);
    } else {
      var t := TokenEnd(x);
      TokenEndAppend(x, w);
      assert (x + w)[..t] == x[..t];
      assert (x + w)[t..] == x[t..] + w;
      FieldsDropTrailing(x[t..], w);
    }
  }

  /** Splitting ignores trimming: `trim` only removes whitespace at both ends. */
  lemma FieldsOfTrim(s: string)
    ensures Fields(Trim(s)) == Fields(s)
  {
    var t := TrimStart(s);
    TrimStartSpec(s);
    var k := |s| - |t|;
    assert s == s[..k] + t;
    FieldsSkipLeading(s[..k], t);
    var u := TrimEnd(t);
    TrimEndSpec(t);
    assert t == u + t[|u|..];
    FieldsDropTrailing(u, t[|u|..]);
  }

  /**
   * `str::trim` yields the slice of `s` left after dropping whitespace-only
   * runs at both ends; the slice is empty or starts and ends with a
   * character that is not whitespace.
   */
  lemma TrimSpec(s: string)
    ensures |Trim(s)| <= |TrimStart(s)| <= |s|
    ensures Trim(s) == s[|s| - |TrimStart(s)|..|s| - |TrimStart(s)| + |Trim(s)|]
    ensures AllWhitespace(s[..|s| - |TrimStart(s)|])
    ensures AllWhitespace(s[|s| - |TrimStart(s)| + |Trim(s)|..])
    ensures Trim(s) == [] || (!IsWhitespace(Trim(s)[0]) && !IsWhitespace(Trim(s)[|Trim(s)| - 1]))
  {
    var t := TrimStart(s);
    TrimStartSpec(s);
    var k := |s| - |t|;
    var u := TrimEnd(t);
    TrimEndSpec(t);
    assert s[k..] == t;
    assert s[k..k + |u|] == t[..|u|];
    assert s[k + |u|..] == t[|u|..];
    if u != [] {
      assert u[0] == t[0];
    }
  }

  /** Fields `fs` with the whitespace runs `ws` around and between them. */
  function Spaced(ws: seq<string>, fs: seq<string>): string
    requires |ws| == |fs| + 1
    decreases |fs|
  {
    if fs == [] then ws[0] else ws[0] + fs[0] + Spaced(ws[1..], fs[1..])
  }

  /** The layout of a line: whitespace-only separators, non-empty between fields; fields free of whitespace. */
  ghost predicate Layout(ws: seq<string>, fs: seq<string>)
  {
    |ws| == |fs| + 1 &&
    (forall i :: 0 <= i < |ws| ==> AllWhitespace(ws[i])) &&
    (forall i :: 0 < i < |fs| ==> ws[i] != []) &&
    (forall i :: 0 <= i < |fs| ==> fs[i] != [] && NoWhitespace(fs[i]))
  }

  /**
   * `split_whitespace` gives back the fields of any layout, whatever the
   * whitespace before, between and after them.
   */
  lemma {:induction false} FieldsOfSpaced(ws: seq<string>, fs: seq<string>)
    requires Layout(ws, fs)
    ensures Fields(Spaced(ws, fs)) == fs
    decreases |fs|
  {
    if fs == [] {
      NoFieldsInWhitespace(ws[0]);
    } else {
      var f, rest := fs[0], Spaced(ws[1..], fs[1..]);
      assert Layout(ws[1..], fs[1..]) by {
        forall i | 0 < i < |fs| - 1
          ensures ws[1..][i] != []
        {
          assert ws[1..][i] == ws[i + 1];
        }
      }
      assert rest == [] || IsWhitespace(rest[0]) by {
        if |fs| > 1 {
          assert ws[1] != [];
          assert rest == ws[1] + (fs[1] + Spaced(ws[2..], fs[2..]));
          assert rest[0] == ws[1][0];
        }
      }
      assert Spaced(ws, fs) == ws[0] + (f + rest);
      FieldsSkipLeading(ws[0], f + rest);
      TokenEndOf(f, rest);
      assert (f + rest)[..|f|] == f;
      assert (f + rest)[|f|..] == rest;
      FieldsOfSpaced(ws[1..], fs[1..]);
      assert fs == [f] + fs[1..];
    }
  }

  /** A string that neither starts nor ends with whitespace is its own trim. */
  lemma TrimUnchanged(s: string)
    requires s != [] && !IsWhitespace(s[0]) && !IsWhitespace(s[|s| - 1])
    ensures Trim(s) == s
  {
  }

  /** A formatted edge needs no trimming, is no comment, and splits into its two numerals. */
  lemma FormatEdgeFields(e: Edge)
    ensures Trim(FormatEdge(e)) == FormatEdge(e)
    ensures !IsComment(FormatEdge(e))
    ensures Fields(FormatEdge(e)) == [Decimal(e.src), Decimal(e.dst)]
  {
    var a, b := Decimal(e.src), Decimal(e.dst);
    var line := FormatEdge(e);
    assert line == Unwords([a, b]);
    assert line[0] == a[0] && line[|line| - 1] == b[|b| - 1];
    assert IsDigit(a[0]) && IsDigit(b[|b| - 1]);
    TrimUnchanged(line);
    FieldsOfUnwords([a, b]);
  }

  /** A formatted in-range edge parses back to itself. */
  lemma LineRoundTrip(e: Edge, maxValue: nat)
    requires e.src <= maxValue && e.dst <= maxValue && maxValue < U128_LIMIT
    ensures ParseLine(FormatEdge(e), maxValue) == Ok(Some(e))
  {
    FormatEdgeFields(e);
    ParseDecimal(e.src);
    ParseDecimal(e.dst);
    EdgeLine(FormatEdge(e), maxValue, Decimal(e.src), Decimal(e.dst), e);
  }

  /** A non-comment line whose two fields parse to in-range ids yields that edge. */
  lemma EdgeLine(line: string, maxValue: nat, a: string, b: string, e: Edge)
    requires !IsComment(line) && Fields(Trim(line)) == [a, b]
    requires ParseU128(a) == Some(e.src) && ParseU128(b) == Some(e.dst)
    requires e.src <= maxValue && e.dst <= maxValue
    ensures ParseLine(line, maxValue) == Ok(Some(e))
  {
  }

  /**
   * An in-range edge written with any whitespace before, between and after
   * its two numerals (at least one character between them) parses back to
   * itself.
   */
  lemma SpacedLineRoundTrip(e: Edge, maxValue: nat, w0: string, w1: string, w2: string)
    requires AllWhitespace(w0) && AllWhitespace(w1) && AllWhitespace(w2) && w1 != []
    requires e.src <= maxValue && e.dst <= maxValue && maxValue < U128_LIMIT
    ensures ParseLine(w0 + Decimal(e.src) + w1 + Decimal(e.dst) + w2, maxValue) == Ok(Some(e))
  {
    var a, b := Decimal(e.src), Decimal(e.dst);
    var line := w0 + a + w1 + b + w2;
    assert NoWhitespace(a) && NoWhitespace(b) by {
      assert forall i :: 0 <= i < |a| ==> IsDigit(a[i]);
      assert forall i :: 0 <= i < |b| ==> IsDigit(b[i]);
    }
    TwoFields(w0, a, w1, b, w2);
    assert line == w0 + (a + w1 + b + w2);
    NotCommentAfterWhitespace(w0, a + w1 + b + w2);
    ParseDecimal(e.src);
    ParseDecimal(e.dst);
    EdgeLine(line, maxValue, a, b, e);
  }

  /** Two fields with whitespace around and between them split into those two fields. */
  lemma TwoFields(w0: string, a: string, w1: string, b: string, w2: string)
    requires AllWhitespace(w0) && AllWhitespace(w1) && AllWhitespace(w2) && w1 != []
    requires a != [] && NoWhitespace(a) && b != [] && NoWhitespace(b)
    ensures Fields(Trim(w0 + a + w1 + b + w2)) == [a, b]
  {
    var ws, fs := [w0, w1, w2], [a, b];
    assert Layout(ws, fs);
    assert Spaced(ws[2..], fs[2..]) == w2;
    assert Spaced(ws[1..], fs[1..]) == w1 + b + w2;
    assert Spaced(ws, fs) == w0 + a + w1 + b + w2;
    FieldsOfSpaced(ws, fs);
    FieldsOfTrim(w0 + a + w1 + b + w2);
  }

  /** Leading whitespace is exactly what `trim_start` drops. */
  lemma {:induction false} TrimStartSkip(w: string, rest: string)
    requires AllWhitespace(w)
    requires rest == [] || !IsWhitespace(rest[0])
    ensures TrimStart(w + rest) == rest
    decreases |w|
  {
    if w == [] {
      assert w + rest == rest;
    } else {
      assert (w + rest)[1..] == w[1..] + rest;
      TrimStartSkip(w[1..], rest);
    }
  }

  /** A line whose first non-whitespace character is a digit is no comment. */
  lemma NotCommentAfterWhitespace(w: string, rest: string)
    requires AllWhitespace(w)
    requires rest != [] && IsDigit(rest[0])
    ensures !IsComment(w + rest)
  {
    TrimStartSkip(w, rest);
    TrimEndSpec(rest);
    var l := Trim(w + rest);
    assert l == TrimEnd(rest);
    assert l != [];
    assert l[0] == rest[0];
  }

  /** A concrete case: tabs and a trailing space around and between the ids. */
  lemma TabbedLineExample(maxValue: nat)
    requires 4 <= maxValue < U128_LIMIT
    ensures ParseLine("\t3\t\t4 ", maxValue) == Ok(Some(Edge(3, 4)))
  {
    assert Decimal(3) == "3" && Decimal(4) == "4";
    assert "\t3\t\t4 " == "\t" + Decimal(3) + "\t\t" + Decimal(4) + " ";
    SpacedLineRoundTrip(Edge(3, 4), maxValue, "\t", "\t\t", " ");
  }

  /** A concrete case: a comment line is skipped. */
  lemma CommentExample(maxValue: nat)
    ensures ParseLine("# comment", maxValue) == Ok(None)
  {
    TrimUnchanged("# comment");
  }

  /** A concrete case: a line with three fields is rejected. */
  lemma ExtraFieldExample(maxValue: nat)
    ensures ParseLine("1 2 3", maxValue) == Err(ExtraFields)
  {
    var line := "1 2 3";
    assert Unwords(["1", "2", "3"]) == line;
    FieldsOfUnwords(["1", "2", "3"]);
    TrimUnchanged(line);
    assert |Fields(Trim(line))| == 3;
    WrongFieldCountRejected(line, maxValue);
  }

  /** One parse outcome per line of the file, in order. */
  function ParseLines(lines: seq<string>, maxValue: nat): (rs: seq<Result<Option<Edge>, LoadError>>)
    ensures |rs| == |lines|
    ensures forall i :: 0 <= i < |lines| ==> rs[i] == ParseLine(lines[i], maxValue)
  {
    seq(|lines|, i requires 0 <= i < |lines| => ParseLine(lines[i], maxValue))
  }

  /**
   * The outcome of a file from the outcomes of its lines: the first failing
   * line decides the error, otherwise the edges of the non-comment lines in
   * file order.
   */
  function Collect(rs: seq<Result<Option<Edge>, LoadError>>): Result<seq<Edge>, LoadError>
  {
    if rs == [] then Ok([])
    else
      match Collect(rs[..|rs| - 1])
      case Err(e) => Err(e)
      case Ok(es) =>
        match rs[|rs| - 1]
        case Err(e) => Err(e)
        case Ok(None) => Ok(es)
        case Ok(Some(e)) => Ok(es + [e])
  }

  /** The lines of a file, parsed in order. */
  function ParseEdges(lines: seq<string>, maxValue: nat): Result<seq<Edge>, LoadError>
  {
    Collect(ParseLines(lines, maxValue))
  }

  /**
   * What collecting line outcomes yields: success exactly when every line
   * succeeds, and then exactly the edges of the edge lines; otherwise the
   * error of the first failing line.
   */
  lemma CollectOutcome(rs: seq<Result<Option<Edge>, LoadError>>)
    ensures Collect(rs).Ok? <==> forall i :: 0 <= i < |rs| ==> rs[i].Ok?
    ensures Collect(rs).Err? ==>
      exists i :: 0 <= i < |rs| && rs[i] == Err(Collect(rs).error) && forall j :: 0 <= j < i ==> rs[j].Ok?
    ensures Collect(rs).Ok? ==> forall e :: e in Collect(rs).value <==> Ok(Some(e)) in rs
    ensures Collect(rs).Ok? ==> exists idx :: EdgeLinesInOrder(rs, idx, Collect(rs).value)
  {
    CollectFirstError(rs);
    CollectInOrder(rs);
  }

  /** Success, membership and the first error, by induction on the lines. */
  lemma {:induction false} CollectFirstError(rs: seq<Result<Option<Edge>, LoadError>>)
    ensures Collect(rs).Ok? <==> forall i :: 0 <= i < |rs| ==> rs[i].Ok?
    ensures Collect(rs).Err? ==>
      exists i :: 0 <= i < |rs| && rs[i] == Err(Collect(rs).error) && forall j :: 0 <= j < i ==> rs[j].Ok?
    ensures Collect(rs).Ok? ==> forall e :: e in Collect(rs).value <==> Ok(Some(e)) in rs
    decreases |rs|
  {
    if rs != [] {
      var init, last := rs[..|rs| - 1], rs[|rs| - 1];
      CollectFirstError(init);
      assert rs == init + [last];
      assert forall i :: 0 <= i < |init| ==> rs[i] == init[i];
      match Collect(init)
      case Err(e) =>
        var i :| 0 <= i < |init| && init[i] == Err(e) && forall j :: 0 <= j < i ==> init[j].Ok?;
        assert rs[i] == Err(e);
      case Ok(es) =>
        match last
        case Err(e) =>
          assert rs[|rs| - 1] == Err(e);
        case Ok(None) =>
          assert forall e :: Ok(Some(e)) in rs <==> Ok(Some(e)) in init;
        case Ok(Some(x)) =>
          assert forall e :: Ok(Some(e)) in rs <==> Ok(Some(e)) in init || e == x;
    }
  }

  /**
   * `idx` lists, in increasing order, every line whose outcome is an edge,
   * and `es` holds those edges in the same order, one per line.
   */
  ghost predicate EdgeLinesInOrder(rs: seq<Result<Option<Edge>, LoadError>>, idx: seq<nat>, es: seq<Edge>)
  {
    && |idx| == |es|
    && (forall j :: 0 <= j < |idx| ==> idx[j] < |rs| && rs[idx[j]] == Ok(Some(es[j])))
    && (forall j, k :: 0 <= j < k < |idx| ==> idx[j] < idx[k])
    && (forall i :: 0 <= i < |rs| && rs[i].Ok? && rs[i].value.Some? ==> i in idx)
  }

  /**
   * A successful collection keeps every edge line's edge, once per line and
   * in line order.
   */
  lemma {:induction false} CollectInOrder(rs: seq<Result<Option<Edge>, LoadError>>)
    ensures Collect(rs).Ok? ==> exists idx :: EdgeLinesInOrder(rs, idx, Collect(rs).value)
    decreases |rs|
  {
    if rs == [] {
      assert EdgeLinesInOrder(rs, [], []);
    } else if Collect(rs).Ok? {
      var init, last := rs[..|rs| - 1], rs[|rs| - 1];
      assert rs == init + [last];
      CollectInOrder(init);
      var es := Collect(init).value;
      var idx: seq<nat> :| EdgeLinesInOrder(init, idx, es);
      if last.value.Some? {
        InOrderExtendEdge(init, idx, es, last.value.value);
        assert EdgeLinesInOrder(rs, idx + [|init|], Collect(rs).value);
      } else {
        InOrderExtendSkip(init, idx, es, last);
        assert EdgeLinesInOrder(rs, idx, Collect(rs).value);
      }
    }
  }

  lemma InOrderExtendEdge(rs: seq<Result<Option<Edge>, LoadError>>, idx: seq<nat>, es: seq<Edge>, x: Edge)
    requires EdgeLinesInOrder(rs, idx, es)
    ensures EdgeLinesInOrder(rs + [Ok(Some(x))], idx + [|rs|], es + [x])
  {
    var rs', idx' := rs + [Ok(Some(x))], idx + [|rs|];
    assert forall i :: 0 <= i < |rs| ==> rs'[i] == rs[i];
    assert forall j :: 0 <= j < |idx| ==> idx'[j] == idx[j];
  }

  lemma InOrderExtendSkip(rs: seq<Result<Option<Edge>, LoadError>>, idx: seq<nat>, es: seq<Edge>, r: Result<Option<Edge>, LoadError>)
    requires EdgeLinesInOrder(rs, idx, es)
    requires r == Ok(None)
    ensures EdgeLinesInOrder(rs + [r], idx, es)
  {
    var rs' := rs + [r];
    assert forall i :: 0 <= i < |rs| ==> rs'[i] == rs[i];
  }

  /**
   * Loading a file succeeds exactly when every line parses, and then yields
   * exactly the edges of its edge lines; otherwise it fails with the error
   * of the first line that fails.
   */
  lemma ParseEdgesOutcome(lines: seq<string>, maxValue: nat)
    ensures ParseEdges(lines, maxValue).Ok? <==> forall i :: 0 <= i < |lines| ==> ParseLines(lines, maxValue)[i].Ok?
    ensures ParseEdges(lines, maxValue).Err? ==>
      exists i :: 0 <= i < |lines| && ParseLines(lines, maxValue)[i] == Err(ParseEdges(lines, maxValue).error) &&
        forall j :: 0 <= j < i ==> ParseLines(lines, maxValue)[j].Ok?
    ensures ParseEdges(lines, maxValue).Ok? ==>
      forall e :: e in ParseEdges(lines, maxValue).value <==> Ok(Some(e)) in ParseLines(lines, maxValue)
    ensures ParseEdges(lines, maxValue).Ok? ==>
      exists idx :: EdgeLinesInOrder(ParseLines(lines, maxValue), idx, ParseEdges(lines, maxValue).value)
  {
    CollectOutcome(ParseLines(lines, maxValue));
  }

  /** Sequencing two parse outcomes: the first error wins, otherwise the edges are concatenated. */
  function AndThen(a: Result<seq<Edge>, LoadError>, b: Result<seq<Edge>, LoadError>): Result<seq<Edge>, LoadError>
  {
    match a
    case Err(e) => Err(e)
    case Ok(x) =>
      match b
      case Err(e) => Err(e)
      case Ok(y) => Ok(x + y)
  }

  lemma {:induction false} CollectSplit(a: seq<Result<Option<Edge>, LoadError>>, b: seq<Result<Option<Edge>, LoadError>>)
    ensures Collect(a + b) == AndThen(Collect(a), Collect(b))
    decreases |b|
  {
    if b == [] {
      assert a + b == a;
      if Collect(a).Ok? {
        assert Collect(a).value + [] == Collect(a).value;
      }
    } else {
      var b' := b[..|b| - 1];
      assert (a + b)[..|a + b| - 1] == a + b';
      assert (a + b)[|a + b| - 1] == b[|b| - 1];
      CollectSplit(a, b');
      match Collect(a) {
        case Err(e) =>
        case Ok(x) =>
          match Collect(b') {
            case Err(e) =>
            case Ok(y) =>
              match b[|b| - 1] {
                case Err(e) =>
                case Ok(None) =>
                case Ok(Some(e)) =>
                  assert x + y + [e] == x + (y + [e]);
              }
          }
      }
    }
  }

  /** Parsing a file in two pieces is parsing it whole: edges keep file order and the first error wins. */
  lemma ParseEdgesSplit(a: seq<string>, b: seq<string>, maxValue: nat)
    ensures ParseEdges(a + b, maxValue) == AndThen(ParseEdges(a, maxValue), ParseEdges(b, maxValue))
  {
    assert ParseLines(a + b, maxValue) == ParseLines(a, maxValue) + ParseLines(b, maxValue);
    CollectSplit(ParseLines(a, maxValue), ParseLines(b, maxValue));
  }

  lemma CommentLineAlone(c: string, maxValue: nat)
    requires IsComment(c)
    ensures ParseEdges([c], maxValue) == Ok([])
  {
    var one := ParseLines([c], maxValue);
    assert one[0] == ParseLine(c, maxValue) == Ok(None);
    assert one[..0] == [];
    assert Collect(one) == Ok([]);
  }

  /** Inserting a comment line anywhere changes nothing. */
  lemma CommentLineIgnored(a: seq<string>, c: string, b: seq<string>, maxValue: nat)
    requires IsComment(c)
    ensures ParseEdges(a + [c] + b, maxValue) == ParseEdges(a + b, maxValue)
  {
    ParseEdgesSplit(a + [c], b, maxValue);
    ParseEdgesSplit(a, [c], maxValue);
    ParseEdgesSplit(a, b, maxValue);
    CommentLineAlone(c, maxValue);
    if ParseEdges(a, maxValue).Ok? {
      assert ParseEdges(a, maxValue).value + [] == ParseEdges(a, maxValue).value;
    }
  }

  /** Once a prefix of the outcomes fails, the whole file fails with the same error. */
  lemma ErrorPersists(rs: seq<Result<Option<Edge>, LoadError>>, i: nat, e: LoadError)
    requires i <= |rs|
    requires Collect(rs[..i]) == Err(e)
    ensures Collect(rs) == Err(e)
  {
    CollectSplit(rs[..i], rs[i..]);
    assert rs[..i] + rs[i..] == rs;
  }

  /** Edges written one per line. */
  function FormatLines(es: seq<Edge>): (lines: seq<string>)
    ensures |lines| == |es|
    ensures forall i :: 0 <= i < |es| ==> lines[i] == FormatEdge(es[i])
  {
    seq(|es|, i requires 0 <= i < |es| => FormatEdge(es[i]))
  }

  /** Outcomes that are all edges collect to those edges. */
  lemma {:induction false} CollectEdges(rs: seq<Result<Option<Edge>, LoadError>>, es: seq<Edge>)
    requires |rs| == |es|
    requires forall i :: 0 <= i < |rs| ==> rs[i] == Ok(Some(es[i]))
    ensures Collect(rs) == Ok(es)
  {
    if rs != [] {
      var k := |rs| - 1;
      CollectEdges(rs[..k], es[..k]);
      assert es[..k] + [es[k]] == es;
    }
  }

  /** Writing in-range edges one per line and loading the lines gives back the edge list. */
  lemma EdgesRoundTrip(es: seq<Edge>, maxValue: nat)
    requires maxValue < U128_LIMIT
    requires forall e :: e in es ==> e.src <= maxValue && e.dst <= maxValue
    ensures ParseEdges(FormatLines(es), maxValue) == Ok(es)
  {
    var rs := ParseLines(FormatLines(es), maxValue);
    forall i | 0 <= i < |es|
      ensures rs[i] == Ok(Some(es[i]))
    {
      assert es[i] in es;
      LineRoundTrip(es[i], maxValue);
    }
    CollectEdges(rs, es);
  }
}
