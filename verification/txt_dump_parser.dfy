/** The text dump parser (`TxtDumpParser`): a marker-delimited text dump becomes
    employees (with their salaries, donations and department), the departments
    without repetitions, and the exchange rates. */
module TxtDumpParser {
  import opened Results
  import opened JsText
  import opened Records

  /** The block tokens `parse` passes to `_splitData`. */
  const EmployeeToken: string := "Employee"
  const RatesToken: string := "Rates"

  /** The three `STATEMENT_TYPES` markers: lines that open a salary, a donation
      or an exchange-rate record. */
  const SalaryMarker: string := "Salary"
  const DonationMarker: string := "Donation"
  const ExchangeRateMarker: string := "Rate"

  // ---------------------------------------------------------------------------
  // Whitespace normalisation (`_replaceNewLines`, `_prepareData`)
  // ---------------------------------------------------------------------------

  /** No line feed is directly followed by white space. */
  predicate NoSpaceAfterLineBreak(s: string)
  {
    forall i :: 0 <= i < |s| - 1 && s[i] == '\n' ==> !IsSpace(s[i + 1])
  }

  /** `str.replace` of the global pattern `\n\s*` by "\n": each line feed, together with all the white
      space after it (further line feeds included), becomes one line feed. */
  function CollapseLineBreaks(s: string): (r: string)
    ensures |r| > 0 <==> |s| > 0
    ensures |s| > 0 ==> r[0] == s[0]
    decreases |s|
  {
    if s == [] then []
    else if s[0] == '\n' then "\n" + CollapseLineBreaks(TrimStart(s[1..]))
    else [s[0]] + CollapseLineBreaks(s[1..])
  }

  /** `_replaceNewLines`: collapse the line breaks, then `trim`. */
  function ReplaceNewLines(str: string): (r: string)
    ensures r != [] ==> !IsSpace(r[0]) && !IsSpace(r[|r| - 1])
    ensures NoSpaceAfterLineBreak(r)
  {
    var collapsed := CollapseLineBreaks(str);
    CollapsedHasNoSpaceAfterLineBreak(str);
    TrimKeepsNoSpaceAfterLineBreak(collapsed);
    Trim(collapsed)
  }

  lemma {:induction false} CollapsedHasNoSpaceAfterLineBreak(s: string)
    ensures NoSpaceAfterLineBreak(CollapseLineBreaks(s))
    decreases |s|
  {
    if s != [] {
      var r := CollapseLineBreaks(s);
      if s[0] == '\n' {
        var t := TrimStart(s[1..]);
        CollapsedHasNoSpaceAfterLineBreak(t);
        var c := CollapseLineBreaks(t);
        assert r == "\n" + c;
        forall i | 0 <= i < |r| - 1 && r[i] == '\n' ensures !IsSpace(r[i + 1]) {
          if i > 0 {
            assert r[i] == c[i - 1] && r[i + 1] == c[i];
          }
        }
      } else {
        CollapsedHasNoSpaceAfterLineBreak(s[1..]);
        var c := CollapseLineBreaks(s[1..]);
        assert r == [s[0]] + c;
        forall i | 0 <= i < |r| - 1 && r[i] == '\n' ensures !IsSpace(r[i + 1]) {
          assert i > 0;
          assert r[i] == c[i - 1] && r[i + 1] == c[i];
        }
      }
    }
  }

  lemma TrimKeepsNoSpaceAfterLineBreak(s: string)
    requires NoSpaceAfterLineBreak(s)
    ensures NoSpaceAfterLineBreak(Trim(s))
  {
    var i := TrimSlice(s);
    var r := Trim(s);
    forall p | 0 <= p < |r| - 1 && r[p] == '\n' ensures !IsSpace(r[p + 1]) {
      assert r[p] == s[i + p] && r[p + 1] == s[i + p + 1];
    }
  }

  /** Text that already has no white space after a line feed is left alone
      by the collapsing replacement. */
  lemma {:induction false} CollapseFixesNormalText(s: string)
    requires NoSpaceAfterLineBreak(s)
    ensures CollapseLineBreaks(s) == s
    decreases |s|
  {
    if s != [] {
      assert NoSpaceAfterLineBreak(s[1..]) by {
        forall i | 0 <= i < |s[1..]| - 1 && s[1..][i] == '\n' ensures !IsSpace(s[1..][i + 1]) {
          assert s[1..][i] == s[i + 1] && s[1..][i + 1] == s[i + 2];
        }
      }
      CollapseFixesNormalText(s[1..]);
      if s[0] == '\n' {
        if |s| > 1 {
          assert !IsSpace(s[1]);
          assert s[1..][0] == s[1];
        }
        assert TrimStart(s[1..]) == s[1..];
      }
      assert s == [s[0]] + s[1..];
    }
  }

  /** A line feed followed by white space `w` and then by visible text stays
      one line feed: the text before it and the text after it are collapsed
      on their own, so an indented line remains a line of its own. */
  lemma CollapseAtLineBreak(a: string, w: string, b: string)
    requires a == [] || !IsSpace(a[|a| - 1])
    requires forall i :: 0 <= i < |w| ==> IsSpace(w[i])
    requires b == [] || !IsSpace(b[0])
    ensures CollapseLineBreaks(a + "\n" + w + b) == CollapseLineBreaks(a) + "\n" + CollapseLineBreaks(b)
  {
    var wb := w + b;
    var rest := ['\n'] + wb;
    ConcatAssoc(a + "\n", w, b);
    ConcatAssoc(a, "\n", wb);
    CollapseSplitsAfterVisible(a, rest);
    CollapseCons('\n', wb);
    TrimStartOfSpaces(w, b);
    var ca := CollapseLineBreaks(a);
    var cb := CollapseLineBreaks(b);
    ConcatAssoc(ca, ['\n'], cb);
  }

  /** A line that ends in blanks other than a line feed (spaces, tabs, the
      '\r' of a CRLF dump) keeps those blanks and its line feed: only the
      white space after the line feed goes. */
  lemma CollapseAtLineBreakAfterBlanks(a: string, t: string, w: string, b: string)
    requires a == [] || !IsSpace(a[|a| - 1])
    requires forall i :: 0 <= i < |t| ==> IsSpace(t[i]) && t[i] != '\n'
    requires forall i :: 0 <= i < |w| ==> IsSpace(w[i])
    requires b == [] || !IsSpace(b[0])
    ensures CollapseLineBreaks(a + (t + (['\n'] + (w + b)))) ==
      CollapseLineBreaks(a) + (t + (['\n'] + CollapseLineBreaks(b)))
  {
    var rest := t + (['\n'] + (w + b));
    var tail := t + (['\n'] + CollapseLineBreaks(b));
    BlanksThenBreak(t, w, b);
    assert CollapseLineBreaks(rest) == tail;
    CollapseSplitsAfterVisible(a, rest);
  }

  lemma {:induction false} BlanksThenBreak(t: string, w: string, b: string)
    requires forall i :: 0 <= i < |t| ==> IsSpace(t[i]) && t[i] != '\n'
    requires forall i :: 0 <= i < |w| ==> IsSpace(w[i])
    requires b == [] || !IsSpace(b[0])
    ensures CollapseLineBreaks(t + (['\n'] + (w + b))) == t + (['\n'] + CollapseLineBreaks(b))
    decreases |t|
  {
    var rest := ['\n'] + (w + b);
    if t == [] {
      assert t + rest == rest;
      CollapseCons('\n', w + b);
      TrimStartOfSpaces(w, b);
      assert t + (['\n'] + CollapseLineBreaks(b)) == ['\n'] + CollapseLineBreaks(b);
    } else {
      var c := t[0];
      var t' := t[1..];
      assert t == [c] + t';
      ConcatAssoc([c], t', rest);
      CollapseCons(c, t' + rest);
      BlanksThenBreak(t', w, b);
      ConcatAssoc([c], t', ['\n'] + CollapseLineBreaks(b));
    }
  }

  lemma ConcatAssoc(x: string, y: string, z: string)
    ensures x + (y + z) == (x + y) + z
  {
  }

  /** One step of the replacement, at the first character. */
  lemma CollapseCons(c: char, t: string)
    ensures CollapseLineBreaks([c] + t) ==
      if c == '\n' then ['\n'] + CollapseLineBreaks(TrimStart(t)) else [c] + CollapseLineBreaks(t)
  {
    assert ([c] + t)[0] == c;
    assert ([c] + t)[1..] == t;
  }

  /** Text that ends with a visible character is collapsed independently of
      what follows it. */
  lemma {:induction false} CollapseSplitsAfterVisible(a: string, rest: string)
    requires a == [] || !IsSpace(a[|a| - 1])
    ensures CollapseLineBreaks(a + rest) == CollapseLineBreaks(a) + CollapseLineBreaks(rest)
    decreases |a|
  {
    if a == [] {
      assert a + rest == rest;
    } else {
      var c := a[0];
      var tail := a[1..];
      assert a == [c] + tail;
      assert a + rest == [c] + (tail + rest);
      CollapseCons(c, tail);
      CollapseCons(c, tail + rest);
      if c == '\n' {
        assert |tail| >= 1 && tail[|tail| - 1] == a[|a| - 1];
        TrimStartOfConcat(tail, rest);
        var a2 := TrimStart(tail);
        VisibleEndSurvives(tail);
        CollapseSplitsAfterVisible(a2, rest);
        var c2 := CollapseLineBreaks(a2);
        var cr := CollapseLineBreaks(rest);
        ConcatAssoc(['\n'], c2, cr);
      } else {
        assert tail == [] || tail[|tail| - 1] == a[|a| - 1];
        CollapseSplitsAfterVisible(tail, rest);
        var c2 := CollapseLineBreaks(tail);
        var cr := CollapseLineBreaks(rest);
        ConcatAssoc([c], c2, cr);
      }
    }
  }

  /** Two normalised lines separated by a line feed and indentation become
      those two lines separated by one line feed. */
  lemma ReplaceNewLinesKeepsLineBreak(a: string, w: string, b: string)
    requires a != [] && b != [] && IsTrimmed(a) && IsTrimmed(b)
    requires NoSpaceAfterLineBreak(a) && NoSpaceAfterLineBreak(b)
    requires forall i :: 0 <= i < |w| ==> IsSpace(w[i])
    ensures ReplaceNewLines(a + "\n" + w + b) == a + "\n" + b
  {
    CollapseAtLineBreak(a, w, b);
    CollapseFixesNormalText(a);
    CollapseFixesNormalText(b);
    var r := a + "\n" + b;
    assert r[0] == a[0] && r[|r| - 1] == b[|b| - 1];
    TrimmedIsFixed(r);
  }

  /** A normalised line followed by trailing blanks (such as the '\r' of a
      CRLF dump), a line feed, indentation and another normalised line: the
      blanks and the line feed stay and the indentation goes, so the second
      line remains a line of its own. */
  lemma ReplaceNewLinesKeepsLineAfterBlanks(a: string, t: string, w: string, b: string)
    requires a != [] && b != [] && IsTrimmed(a) && IsTrimmed(b)
    requires NoSpaceAfterLineBreak(a) && NoSpaceAfterLineBreak(b)
    requires forall i :: 0 <= i < |t| ==> IsSpace(t[i]) && t[i] != '\n'
    requires forall i :: 0 <= i < |w| ==> IsSpace(w[i])
    ensures ReplaceNewLines(a + (t + (['\n'] + (w + b)))) == a + (t + (['\n'] + b))
  {
    CollapseAtLineBreakAfterBlanks(a, t, w, b);
    CollapseFixesNormalText(a);
    CollapseFixesNormalText(b);
    var r := a + (t + (['\n'] + b));
    assert r[0] == a[0] && r[|r| - 1] == b[|b| - 1];
    TrimmedIsFixed(r);
  }

  /** `_replaceNewLines` is idempotent. */
  lemma ReplaceNewLinesIdempotent(str: string)
    ensures ReplaceNewLines(ReplaceNewLines(str)) == ReplaceNewLines(str)
  {
    var once := ReplaceNewLines(str);
    CollapseFixesNormalText(once);
    TrimmedIsFixed(once);
  }

  lemma {:induction false} CollapseKeepsVisible(s: string)
    ensures Visible(CollapseLineBreaks(s)) == Visible(s)
    decreases |s|
  {
    if s != [] {
      var h := if IsSpace(s[0]) then [] else [s[0]];
      if s[0] == '\n' {
        var t := TrimStart(s[1..]);
        CollapseKeepsVisible(t);
        TrimStartKeepsVisible(s[1..]);
        VisibleConcat("\n", CollapseLineBreaks(t));
      } else {
        CollapseKeepsVisible(s[1..]);
        VisibleConcat([s[0]], CollapseLineBreaks(s[1..]));
      }
    }
  }

  /** `_replaceNewLines` only removes white space: every other character is
      kept, in order. */
  lemma ReplaceNewLinesKeepsVisible(str: string)
    ensures Visible(ReplaceNewLines(str)) == Visible(str)
  {
    CollapseKeepsVisible(str);
    TrimKeepsVisible(CollapseLineBreaks(str));
  }

  /** `_prepareData`: normalise every chunk. */
  function PrepareData(data: seq<string>): (r: seq<string>)
    ensures |r| == |data|
    ensures forall i :: 0 <= i < |data| ==> r[i] == ReplaceNewLines(data[i])
  {
    seq(|data|, i requires 0 <= i < |data| => ReplaceNewLines(data[i]))
  }

  // ---------------------------------------------------------------------------
  // Segmentation (`_splitData`)
  // ---------------------------------------------------------------------------

  /** What `_splitData(data, startToken, endToken)` returns: the employee chunks
      and the rates text, which is `undefined` (`None`) when the last chunk has
      no `endToken`. It throws when `data` has no `startToken`. */
  function Sections(data: string, startToken: string, endToken: string): Result<(seq<string>, Option<string>), ParseError>
    requires |startToken| > 0 && |endToken| > 0
  {
    var chunks := Split(data, startToken)[1..];
    if chunks == [] then Failure(MissingEmployeeBlock)
    else
      var tail := Split(chunks[|chunks| - 1], endToken);
      Success((chunks[..|chunks| - 1] + [tail[0]], if |tail| > 1 then Some(tail[1]) else None))
  }

  /** `_splitData`, which edits the array of chunks in place: `shift()` drops the
      preamble and the last chunk is overwritten by its part before `endToken`. */
  method SplitData(data: string, startToken: string, endToken: string)
    returns (r: Result<(seq<string>, Option<string>), ParseError>)
    requires |startToken| > 0 && |endToken| > 0
    ensures r == Sections(data, startToken, endToken)
  {
    var employeesData := Split(data, startToken);
    employeesData := employeesData[1..];
    var lastIndex := |employeesData| - 1;
    if lastIndex < 0 {
      // employeesData[-1] is undefined: reading its `split` throws
      return Failure(MissingEmployeeBlock);
    }
    var lastEmployee := Split(employeesData[lastIndex], endToken)[0];
    var rest := Split(employeesData[lastIndex], endToken);
    var exchangeRates := if |rest| > 1 then Some(rest[1]) else None;
    ghost var before := employeesData;
    employeesData := employeesData[lastIndex := lastEmployee];
    assert employeesData == before[..lastIndex] + [lastEmployee];
    return Success((employeesData, exchangeRates));
  }

  /** `_splitData` fails exactly when the start token is absent; otherwise it
      yields one chunk per occurrence of the start token, and no chunk contains
      the start token. */
  lemma SectionsShape(data: string, startToken: string, endToken: string)
    requires |startToken| > 0 && |endToken| > 0
    ensures Sections(data, startToken, endToken).Failure? <==> !Contains(data, startToken)
    ensures Sections(data, startToken, endToken).Success? ==>
      |Sections(data, startToken, endToken).value.0| == Count(data, startToken)
    ensures Sections(data, startToken, endToken).Success? ==>
      forall i :: 0 <= i < |Sections(data, startToken, endToken).value.0| ==>
        !Contains(Sections(data, startToken, endToken).value.0[i], startToken)
  {
    var parts := Split(data, startToken);
    SplitSingle(data, startToken);
    SplitCount(data, startToken);
    SplitPiecesFree(data, startToken);
    var r := Sections(data, startToken, endToken);
    if r.Success? {
      var chunks := parts[1..];
      var last := chunks[|chunks| - 1];
      assert !Contains(last, startToken);
      FirstPieceKeepsAbsence(last, endToken, startToken);
      forall i | 0 <= i < |r.value.0| ensures !Contains(r.value.0[i], startToken) {
        if i < |chunks| - 1 {
          assert r.value.0[i] == parts[i + 1];
        }
      }
    }
  }

  /** The first piece of a split of a string without `sep` has no `sep` either. */
  lemma FirstPieceKeepsAbsence(s: string, other: string, sep: string)
    requires |sep| > 0 && |other| > 0 && !Contains(s, sep)
    ensures !Contains(Split(s, other)[0], sep)
  {
    SplitHeadIsPrefix(s, other);
    var h := Split(s, other)[0];
    forall j ensures !OccursAt(h, sep, j) {
      if j >= 0 {
        OccursInPrefix(s, sep, |h|, j);
      }
    }
  }

  /** Text before the first start token is discarded. */
  lemma SectionsIgnorePreamble(pre: string, rest: string, startToken: string, endToken: string)
    requires |startToken| > 0 && |endToken| > 0
    requires forall j :: 0 <= j < |pre| ==> !OccursAt(pre + startToken, startToken, j)
    ensures Sections(pre + startToken + rest, startToken, endToken) == Sections(startToken + rest, startToken, endToken)
  {
    var data := pre + startToken + rest;
    var n := |pre| + |startToken|;
    assert data[..n] == pre + startToken;
    assert OccursAt(data, startToken, |pre|) by {
      assert data[|pre|..n] == startToken;
    }
    forall j | 0 <= j < |pre| ensures !OccursAt(data, startToken, j) {
      OccursInPrefix(data, startToken, n, j);
    }
    SplitAtFirst(data, startToken, |pre|);
    assert data[n..] == rest;
    var data' := startToken + rest;
    assert OccursAt(data', startToken, 0) by {
      assert data'[0..|startToken|] == startToken;
    }
    SplitAtFirst(data', startToken, 0);
    assert data'[|startToken|..] == rest;
  }

  /** The last chunk ends before the first end token after the last start token,
      and the rates text is what lies between the first and the second end token
      (or up to the end of the data); with no end token there, the last chunk
      is kept whole and the rates text is `undefined`. */
  lemma SectionsLastChunk(data: string, startToken: string, endToken: string, k: int, m: int)
    requires |startToken| > 0 && |endToken| > 0
    requires Sections(data, startToken, endToken).Success?
    ensures var raw := Split(data, startToken)[|Split(data, startToken)| - 1];
      var (chunks, rates) := Sections(data, startToken, endToken).value;
      && (Delimits(raw, endToken, k, m) ==>
            chunks[|chunks| - 1] == raw[..k] && rates == Some(raw[k + |endToken|..m]))
      && (!Contains(raw, endToken) ==> chunks[|chunks| - 1] == raw && rates == None)
  {
    var raw := Split(data, startToken)[|Split(data, startToken)| - 1];
    if Delimits(raw, endToken, k, m) {
      SplitFirstTwo(raw, endToken, k, m);
    }
    SplitSingle(raw, endToken);
  }

  // ---------------------------------------------------------------------------
  // Line values (`_getLineValue`)
  // ---------------------------------------------------------------------------

  /** `lines[i]`: `undefined` past the end. */
  function LineAt(lines: seq<string>, i: int): Option<string>
  {
    if 0 <= i < |lines| then Some(lines[i]) else None
  }

  /** `_getLineValue(line)`, that is `line.split(":")[1].trim()`. It throws when
      the line is `undefined` and when it has no ':' (then `[1]` is `undefined`). */
  function GetLineValue(line: Option<string>): (r: Result<string, ParseError>)
    ensures line.None? ==> r == Failure(MissingLine)
    ensures line.Some? ==> (r.Success? <==> ':' in line.value)
    ensures line.Some? && ':' !in line.value ==> r == Failure(MissingColon(line.value))
  {
    match line
    case None => Failure(MissingLine)
    case Some(text) =>
      ContainsChar(text, ':');
      SplitSingle(text, ":");
      var parts := Split(text, ":");
      if |parts| < 2 then Failure(MissingColon(text)) else Success(Trim(parts[1]))
  }

  /** The value of a line is the trimmed text between its first and its second
      ':' (or the end of the line), not everything after the first ':'. */
  lemma LineValueBetweenColons(line: string, k: int, m: int)
    requires Delimits(line, ":", k, m)
    ensures GetLineValue(Some(line)) == Success(Trim(line[k + 1..m]))
  {
    SplitFirstTwo(line, ":", k, m);
  }

  /** Any line with a ':' has a value: the trimmed text between its first ':'
      and the next one (or the end of the line). */
  lemma LineValueOfFieldLine(line: string) returns (k: nat, m: nat)
    requires ':' in line
    ensures Delimits(line, ":", k, m)
    ensures GetLineValue(Some(line)) == Success(Trim(line[k + 1..m]))
  {
    ContainsChar(line, ':');
    k, m := DelimitsExist(line, ":");
    LineValueBetweenColons(line, k, m);
  }

  /** A trimmed string: no white space at either end. */
  predicate IsTrimmed(v: string)
  {
    v != [] ==> !IsSpace(v[0]) && !IsSpace(v[|v| - 1])
  }

  /** The line the dump writes for a field: `key: value`. */
  function FieldLine(key: string, value: string): string
  {
    key + ": " + value
  }

  /** Reading back a written field line gives its value. */
  lemma FieldLineRoundTrip(key: string, value: string)
    requires ':' !in key && ':' !in value && IsTrimmed(value)
    ensures GetLineValue(Some(FieldLine(key, value))) == Success(value)
  {
    var line := FieldLine(key, value);
    FieldLineColon(key, value);
    LineValueBetweenColons(line, |key|, |line|);
    FieldLineTail(key, value);
    TrimLeadingSpace(value);
  }

  lemma FieldLineTail(key: string, value: string)
    ensures FieldLine(key, value)[|key| + 1..|FieldLine(key, value)|] == " " + value
  {
  }

  /** The only ':' of a field line is the one after the key. */
  lemma FieldLineColon(key: string, value: string)
    requires ':' !in key && ':' !in value
    ensures Delimits(FieldLine(key, value), ":", |key|, |FieldLine(key, value)|)
  {
    var line := FieldLine(key, value);
    var k := |key|;
    forall j | 0 <= j < |line| && j != k ensures line[j] != ':' {
      if j < k {
        assert line[j] == key[j];
      } else if j > k + 1 {
        assert line[j] == value[j - k - 2];
      }
    }
    forall j | 0 <= j < k ensures !OccursAt(line, ":", j) {
      OccursOneChar(line, ':', j);
    }
    forall j | k + 1 <= j < |line| ensures !OccursAt(line, ":", j) {
      OccursOneChar(line, ':', j);
    }
    OccursOneChar(line, ':', k);
  }

  lemma TrimLeadingSpace(value: string)
    requires IsTrimmed(value)
    ensures Trim(" " + value) == value
  {
    assert (" " + value)[1..] == value;
    assert TrimStart(" " + value) == TrimStart(value);
    TrimmedIsFixed(value);
  }

  /** `_getLineValue(lines[i])`. */
  function FieldAt(lines: seq<string>, i: int): Result<string, ParseError>
  {
    GetLineValue(LineAt(lines, i))
  }

  /** Line `i` exists and holds a ':'. */
  predicate HasField(lines: seq<string>, i: int)
  {
    0 <= i < |lines| && ':' in lines[i]
  }

  // ---------------------------------------------------------------------------
  // Records (`_parseEmployeeSalary`, `_parseEmployeeDonation`, `_parseExchangeRate`)
  // ---------------------------------------------------------------------------

  /** `_parseEmployeeSalary`: id, amount and date at the marker's offsets
      +1, +2 and +3 (read in the order id, date, amount). */
  function ParseEmployeeSalary(lines: seq<string>, currentIndex: nat, num: Conversions): (r: Result<Salary, ParseError>)
    ensures r.Success? <==>
      HasField(lines, currentIndex + 1) && HasField(lines, currentIndex + 2) && HasField(lines, currentIndex + 3)
    ensures r.Success? ==> r.value.id == num.parseInt(FieldAt(lines, currentIndex + 1).value)
    ensures r.Success? ==> r.value.amount == num.toFixed2(FieldAt(lines, currentIndex + 2).value)
    ensures r.Success? ==> r.value.date == num.toUtcString(FieldAt(lines, currentIndex + 3).value)
  {
    SalaryFromFields(FieldAt(lines, currentIndex + 1), FieldAt(lines, currentIndex + 3), FieldAt(lines, currentIndex + 2), num)
  }

  /** The salary object, built from its property values in the order they are
      evaluated (id, date, amount); the first one that threw is the error. */
  function SalaryFromFields(idField: Result<string, ParseError>, dateField: Result<string, ParseError>,
                            amountField: Result<string, ParseError>, num: Conversions): Result<Salary, ParseError>
  {
    var id :- idField;
    var date :- dateField;
    var amount :- amountField;
    Success(Salary(num.parseInt(id), num.toUtcString(date), num.toFixed2(amount)))
  }

  /** `_parseEmployeeDonation`: id, date and amount at the marker's offsets
      +1, +2 and +3; the amount field holds the amount and the currency
      separated by ' '. */
  function ParseEmployeeDonation(lines: seq<string>, currentIndex: nat, num: Conversions): (r: Result<Donation, ParseError>)
    ensures r.Success? <==>
      HasField(lines, currentIndex + 1) && HasField(lines, currentIndex + 2) && HasField(lines, currentIndex + 3)
    ensures r.Success? ==> r.value.id == num.parseInt(FieldAt(lines, currentIndex + 1).value)
    ensures r.Success? ==> r.value.date == num.toUtcString(FieldAt(lines, currentIndex + 2).value)
  {
    DonationFromFields(FieldAt(lines, currentIndex + 3), FieldAt(lines, currentIndex + 1), FieldAt(lines, currentIndex + 2), num)
  }

  /** The donation object: the amount field is read and split first, then the
      id and the date; the first read that threw is the error. */
  function DonationFromFields(amountField: Result<string, ParseError>, idField: Result<string, ParseError>,
                              dateField: Result<string, ParseError>, num: Conversions): Result<Donation, ParseError>
  {
    var amountText :- amountField;
    var words := Split(amountText, " ");
    var id :- idField;
    var date :- dateField;
    Success(Donation(num.parseInt(id), num.toUtcString(date), num.toFixed2(words[0]),
                     if |words| > 1 then Some(words[1]) else None))
  }

  /** `_parseExchangeRate`: date, sign and value at the marker's offsets
      +1, +2 and +3 (read in the order date, value, sign). */
  function ParseExchangeRate(lines: seq<string>, currentIndex: nat, num: Conversions): (r: Result<ExchangeRate, ParseError>)
    ensures r.Success? <==>
      HasField(lines, currentIndex + 1) && HasField(lines, currentIndex + 2) && HasField(lines, currentIndex + 3)
    ensures r.Success? ==> r.value.date == num.toUtcString(FieldAt(lines, currentIndex + 1).value)
    ensures r.Success? ==> r.value.sign == FieldAt(lines, currentIndex + 2).value
    ensures r.Success? ==> r.value.value == num.toFixed2(FieldAt(lines, currentIndex + 3).value)
  {
    RateFromFields(FieldAt(lines, currentIndex + 1), FieldAt(lines, currentIndex + 3), FieldAt(lines, currentIndex + 2), num)
  }

  /** The exchange-rate object, built from its property values in the order
      they are evaluated (date, value, sign); the first one that threw is the
      error. */
  function RateFromFields(dateField: Result<string, ParseError>, valueField: Result<string, ParseError>,
                          signField: Result<string, ParseError>, num: Conversions): Result<ExchangeRate, ParseError>
  {
    var date :- dateField;
    var value :- valueField;
    var sign :- signField;
    Success(ExchangeRate(num.toUtcString(date), num.toFixed2(value), sign))
  }

  /** A salary record written as `Salary`, `k1: id`, `k2: amount`, `k3: date`
      reads back as that id, amount and date. */
  lemma SalaryRecordRoundTrip(lines: seq<string>, i: nat, num: Conversions,
                              k1: string, id: string, k2: string, amount: string, k3: string, date: string)
    requires i + 3 < |lines|
    requires lines[i + 1] == FieldLine(k1, id) && lines[i + 2] == FieldLine(k2, amount) && lines[i + 3] == FieldLine(k3, date)
    requires ':' !in k1 && ':' !in k2 && ':' !in k3 && ':' !in id && ':' !in amount && ':' !in date
    requires IsTrimmed(id) && IsTrimmed(amount) && IsTrimmed(date)
    ensures ParseEmployeeSalary(lines, i, num) ==
      Success(Salary(num.parseInt(id), num.toUtcString(date), num.toFixed2(amount)))
  {
    FieldLineRoundTrip(k1, id);
    FieldLineRoundTrip(k2, amount);
    FieldLineRoundTrip(k3, date);
  }

  /** A donation record written as `Donation`, `k1: id`, `k2: date`,
      `k3: amount currency` reads back as that id, date, amount and currency. */
  lemma DonationRecordRoundTrip(lines: seq<string>, i: nat, num: Conversions,
                                k1: string, id: string, k2: string, date: string,
                                k3: string, amount: string, currency: string)
    requires i + 3 < |lines|
    requires lines[i + 1] == FieldLine(k1, id) && lines[i + 2] == FieldLine(k2, date)
    requires lines[i + 3] == FieldLine(k3, amount + " " + currency)
    requires ':' !in k1 && ':' !in k2 && ':' !in k3 && ':' !in id && ':' !in date && ':' !in amount && ':' !in currency
    requires ' ' !in amount && ' ' !in currency
    requires IsTrimmed(id) && IsTrimmed(date)
    requires amount != [] && !IsSpace(amount[0]) && currency != [] && !IsSpace(currency[|currency| - 1])
    ensures ParseEmployeeDonation(lines, i, num) ==
      Success(Donation(num.parseInt(id), num.toUtcString(date), num.toFixed2(amount), Some(currency)))
  {
    var text := amount + " " + currency;
    AmountFieldWords(amount, currency);
    FieldLineRoundTrip(k1, id);
    FieldLineRoundTrip(k2, date);
    FieldLineRoundTrip(k3, text);
    assert FieldAt(lines, i + 3) == Success(text);
    assert DonationFromFields(Success(text), Success(id), Success(date), num)
      == Success(Donation(num.parseInt(id), num.toUtcString(date), num.toFixed2(amount), Some(currency)));
  }

  /** The amount field `amount currency` is a trimmed value without ':' whose
      ' '-pieces start with the amount and the currency. */
  lemma AmountFieldWords(amount: string, currency: string)
    requires ':' !in amount && ':' !in currency && ' ' !in amount && ' ' !in currency
    requires amount != [] && !IsSpace(amount[0]) && currency != [] && !IsSpace(currency[|currency| - 1])
    ensures ':' !in amount + " " + currency && IsTrimmed(amount + " " + currency)
    ensures |Split(amount + " " + currency, " ")| >= 2
    ensures Split(amount + " " + currency, " ")[0] == amount && Split(amount + " " + currency, " ")[1] == currency
  {
    var text := amount + " " + currency;
    forall j | 0 <= j < |text| ensures text[j] != ':' {
      if j < |amount| {
        assert text[j] == amount[j];
      } else if j > |amount| {
        assert text[j] == currency[j - |amount| - 1];
      }
    }
    assert text[0] == amount[0] && text[|text| - 1] == currency[|currency| - 1];
    WordsDelimit(amount, currency);
    SplitFirstTwo(text, " ", |amount|, |text|);
    assert text[..|amount|] == amount;
    assert text[|amount| + 1..|text|] == currency;
  }

  /** The currency of a donation is the second ' '-separated word of its amount
      field, and the amount is the first word; without a ' ' the currency is
      `undefined`. */
  lemma DonationCurrencyIsSecondWord(lines: seq<string>, i: nat, num: Conversions, k: int, m: int)
    requires ParseEmployeeDonation(lines, i, num).Success?
    ensures var field := FieldAt(lines, i + 3).value;
      var d := ParseEmployeeDonation(lines, i, num).value;
      && (Delimits(field, " ", k, m) ==> d.currency == Some(field[k + 1..m]) && d.amount == num.toFixed2(field[..k]))
      && (' ' !in field ==> d.currency == None && d.amount == num.toFixed2(field))
  {
    var field := FieldAt(lines, i + 3).value;
    if Delimits(field, " ", k, m) {
      SplitFirstTwo(field, " ", k, m);
    }
    ContainsChar(field, ' ');
    SplitSingle(field, " ");
  }

  /** An exchange-rate record written as `Rate`, `k1: date`, `k2: sign`,
      `k3: value` reads back as that date, sign and value. */
  lemma ExchangeRateRecordRoundTrip(lines: seq<string>, i: nat, num: Conversions,
                                    k1: string, date: string, k2: string, sign: string, k3: string, value: string)
    requires i + 3 < |lines|
    requires lines[i + 1] == FieldLine(k1, date) && lines[i + 2] == FieldLine(k2, sign) && lines[i + 3] == FieldLine(k3, value)
    requires ':' !in k1 && ':' !in k2 && ':' !in k3 && ':' !in date && ':' !in sign && ':' !in value
    requires IsTrimmed(date) && IsTrimmed(sign) && IsTrimmed(value)
    ensures ParseExchangeRate(lines, i, num) ==
      Success(ExchangeRate(num.toUtcString(date), num.toFixed2(value), sign))
  {
    FieldLineRoundTrip(k1, date);
    FieldLineRoundTrip(k2, sign);
    FieldLineRoundTrip(k3, value);
  }

  /** Each record parser reads only the three lines after its marker. */
  lemma RecordParsersReadOnlyTheirLines(lines: seq<string>, lines': seq<string>, i: nat, num: Conversions)
    requires LineAt(lines, i + 1) == LineAt(lines', i + 1)
    requires LineAt(lines, i + 2) == LineAt(lines', i + 2)
    requires LineAt(lines, i + 3) == LineAt(lines', i + 3)
    ensures ParseEmployeeSalary(lines, i, num) == ParseEmployeeSalary(lines', i, num)
    ensures ParseEmployeeDonation(lines, i, num) == ParseEmployeeDonation(lines', i, num)
    ensures ParseExchangeRate(lines, i, num) == ParseExchangeRate(lines', i, num)
  {
    assert FieldAt(lines, i + 1) == FieldAt(lines', i + 1);
    assert FieldAt(lines, i + 2) == FieldAt(lines', i + 2);
    assert FieldAt(lines, i + 3) == FieldAt(lines', i + 3);
  }

  function SalaryParser(num: Conversions): (seq<string>, nat) -> Result<Salary, ParseError>
  {
    (lines: seq<string>, i: nat) => ParseEmployeeSalary(lines, i, num)
  }

  function DonationParser(num: Conversions): (seq<string>, nat) -> Result<Donation, ParseError>
  {
    (lines: seq<string>, i: nat) => ParseEmployeeDonation(lines, i, num)
  }

  function ExchangeRateParser(num: Conversions): (seq<string>, nat) -> Result<ExchangeRate, ParseError>
  {
    (lines: seq<string>, i: nat) => ParseExchangeRate(lines, i, num)
  }

  // ---------------------------------------------------------------------------
  // Marker scan (`_getNextIndex`, `_extractItems`)
  // ---------------------------------------------------------------------------

  /** `lines.findIndex((line, index) => index > currentIndex && line === key)`,
      scanning from `from`. */
  function FindIndexFrom(lines: seq<string>, key: string, currentIndex: int, from: nat): (r: int)
    ensures r == -1 || (from <= r < |lines| && currentIndex < r && lines[r] == key)
    ensures forall i :: from <= i < |lines| && currentIndex < i && (r == -1 || i < r) ==> lines[i] != key
    decreases |lines| - from
  {
    if from >= |lines| then -1
    else if from > currentIndex && lines[from] == key then from
    else FindIndexFrom(lines, key, currentIndex, from + 1)
  }

  /** `_getNextIndex`: the smallest index after `currentIndex` whose line is
      exactly `key`, or -1. */
  function GetNextIndex(lines: seq<string>, key: string, currentIndex: int): (r: int)
    ensures r == -1 || (0 <= r < |lines| && currentIndex < r && lines[r] == key)
    ensures forall i :: 0 <= i < |lines| && currentIndex < i && (r == -1 || i < r) ==> lines[i] != key
  {
    FindIndexFrom(lines, key, currentIndex, 0)
  }

  /** `lines.indexOf(key)`. */
  function IndexOfLine(lines: seq<string>, key: string): (r: int)
    ensures r == -1 || (0 <= r < |lines| && lines[r] == key)
    ensures forall i :: 0 <= i < |lines| && (r == -1 || i < r) ==> lines[i] != key
  {
    GetNextIndex(lines, key, -1)
  }

  /** The indices, from `from` on and in increasing order, of the lines that
      are exactly `key`. */
  function MarkersFrom(lines: seq<string>, key: string, from: nat): seq<nat>
    decreases |lines| - from
  {
    if from >= |lines| then []
    else (if lines[from] == key then [from] else []) + MarkersFrom(lines, key, from + 1)
  }

  /** The marker indices from `from` on are the indices of the lines equal to
      `key`, in increasing order. */
  lemma MarkersFromSpec(lines: seq<string>, key: string, from: nat)
    ensures forall j :: 0 <= j < |MarkersFrom(lines, key, from)| ==> from <= MarkersFrom(lines, key, from)[j] < |lines| && lines[MarkersFrom(lines, key, from)[j]] == key
    ensures forall j, j' :: 0 <= j < j' < |MarkersFrom(lines, key, from)| ==> MarkersFrom(lines, key, from)[j] < MarkersFrom(lines, key, from)[j']
    ensures forall i :: from <= i < |lines| ==> (lines[i] == key <==> i in MarkersFrom(lines, key, from))
  {
    MarkersAreMarkers(lines, key, from);
    MarkersIncrease(lines, key, from);
    MarkersComplete(lines, key, from);
  }

  lemma {:induction false} MarkersAreMarkers(lines: seq<string>, key: string, from: nat)
    ensures forall j :: 0 <= j < |MarkersFrom(lines, key, from)| ==> from <= MarkersFrom(lines, key, from)[j] < |lines| && lines[MarkersFrom(lines, key, from)[j]] == key
    decreases |lines| - from
  {
    if from < |lines| {
      MarkersAreMarkers(lines, key, from + 1);
      var tail := MarkersFrom(lines, key, from + 1);
      var idx := MarkersFrom(lines, key, from);
      if lines[from] == key {
        assert idx == [from] + tail;
        forall j | 0 <= j < |idx| ensures from <= idx[j] < |lines| && lines[idx[j]] == key {
          if j > 0 {
            assert idx[j] == tail[j - 1];
          }
        }
      } else {
        assert idx == tail;
      }
    }
  }

  lemma {:induction false} MarkersIncrease(lines: seq<string>, key: string, from: nat)
    ensures forall j, j' :: 0 <= j < j' < |MarkersFrom(lines, key, from)| ==> MarkersFrom(lines, key, from)[j] < MarkersFrom(lines, key, from)[j']
    decreases |lines| - from
  {
    if from < |lines| {
      MarkersIncrease(lines, key, from + 1);
      MarkersAreMarkers(lines, key, from + 1);
      var tail := MarkersFrom(lines, key, from + 1);
      var idx := MarkersFrom(lines, key, from);
      if lines[from] == key {
        assert idx == [from] + tail;
        forall j, j' | 0 <= j < j' < |idx| ensures idx[j] < idx[j'] {
          assert idx[j'] == tail[j' - 1];
          if j > 0 {
            assert idx[j] == tail[j - 1];
          } else {
            assert idx[j] == from;
          }
        }
      } else {
        assert idx == tail;
      }
    }
  }

  lemma {:induction false} MarkersComplete(lines: seq<string>, key: string, from: nat)
    ensures forall i :: from <= i < |lines| ==> (lines[i] == key <==> i in MarkersFrom(lines, key, from))
    decreases |lines| - from
  {
    if from < |lines| {
      MarkersComplete(lines, key, from + 1);
      MarkersAreMarkers(lines, key, from);
      var tail := MarkersFrom(lines, key, from + 1);
      var idx := MarkersFrom(lines, key, from);
      forall i | from <= i < |lines| && lines[i] == key ensures i in idx {
        if i > from {
          assert i in tail;
        }
      }
    }
  }

  /** Indices of all marker lines equal to `key`. */
  function MarkerIndices(lines: seq<string>, key: string): seq<nat>
  {
    MarkersFrom(lines, key, 0)
  }

  /** The markers still to be visited when the scan stands at `currIndex`. */
  function Pending(lines: seq<string>, key: string, currIndex: int): seq<nat>
  {
    if currIndex < 0 then [] else MarkersFrom(lines, key, currIndex)
  }

  /** `_getNextIndex` is determined by what it promises. */
  lemma NextIndexUnique(lines: seq<string>, key: string, currentIndex: int, r: int)
    requires r == -1 || (0 <= r < |lines| && currentIndex < r && lines[r] == key)
    requires forall i :: 0 <= i < |lines| && currentIndex < i && (r == -1 || i < r) ==> lines[i] != key
    ensures GetNextIndex(lines, key, currentIndex) == r
  {
  }

  /** From `from` on, the markers are those from the next marker found by
      `_getNextIndex(from - 1)` on. */
  lemma {:induction false} MarkersFromNext(lines: seq<string>, key: string, from: nat)
    ensures MarkersFrom(lines, key, from) == Pending(lines, key, GetNextIndex(lines, key, from - 1))
    decreases |lines| - from
  {
    if from >= |lines| {
      NextIndexUnique(lines, key, from - 1, -1);
    } else if lines[from] == key {
      NextIndexUnique(lines, key, from - 1, from);
    } else {
      MarkersFromNext(lines, key, from + 1);
      NextIndexUnique(lines, key, from - 1, GetNextIndex(lines, key, from));
    }
  }

  function ParserAt<T>(lines: seq<string>, parseAt: (seq<string>, nat) -> Result<T, ParseError>): nat -> Result<T, ParseError>
  {
    (i: nat) => parseAt(lines, i)
  }

  /** What `_extractItems(lines, key)` returns: one record per line equal to
      `key`, in line order, each parsed at that line; the first record that
      fails aborts the extraction. */
  function ExtractedItems<T>(lines: seq<string>, key: string, parseAt: (seq<string>, nat) -> Result<T, ParseError>): Result<seq<T>, ParseError>
  {
    MapResult(MarkerIndices(lines, key), ParserAt(lines, parseAt))
  }

  /** `items` followed by the result `r` of the remaining work. */
  function Prefixed<T>(items: seq<T>, r: Result<seq<T>, ParseError>): Result<seq<T>, ParseError>
  {
    if r.Success? then Success(items + r.value) else r
  }

  lemma PrefixedTwice<T>(a: seq<T>, b: seq<T>, r: Result<seq<T>, ParseError>)
    ensures Prefixed(a, Prefixed(b, r)) == Prefixed(a + b, r)
  {
    if r.Success? {
      assert a + (b + r.value) == (a + b) + r.value;
    }
  }

  /** One step of a map that may fail. */
  lemma MapResultStep<A, T>(x: A, rest: seq<A>, f: A -> Result<T, ParseError>)
    ensures f(x).Failure? ==> MapResult([x] + rest, f) == Failure(f(x).error)
    ensures f(x).Success? ==> MapResult([x] + rest, f) == Prefixed([f(x).value], MapResult(rest, f))
  {
    assert ([x] + rest)[0] == x;
    assert ([x] + rest)[1..] == rest;
  }

  /** `_extractItems`: find the first marker with `indexOf`, then parse a
      record at each marker and move on with `_getNextIndex`. The switch on
      `key` selects the record parser; here the caller passes the parser that
      belongs to `key`. */
  method ExtractItems<T>(lines: seq<string>, key: string, parseAt: (seq<string>, nat) -> Result<T, ParseError>)
    returns (r: Result<seq<T>, ParseError>)
    ensures r == ExtractedItems(lines, key, parseAt)
  {
    ghost var f := ParserAt(lines, parseAt);
    var items: seq<T> := [];
    var currIndex := IndexOfLine(lines, key);
    MarkersFromNext(lines, key, 0);
    assert Pending(lines, key, currIndex) == MarkerIndices(lines, key);
    assert Prefixed(items, MapResult(Pending(lines, key, currIndex), f)) == MapResult(MarkerIndices(lines, key), f) by {
      var m := MapResult(MarkerIndices(lines, key), f);
      if m.Success? {
        assert items + m.value == m.value;
      }
    }
    while currIndex != -1
      invariant -1 <= currIndex < |lines|
      invariant currIndex != -1 ==> lines[currIndex] == key
      invariant ExtractedItems(lines, key, parseAt) == Prefixed(items, MapResult(Pending(lines, key, currIndex), f))
      decreases if currIndex == -1 then 0 else |lines| - currIndex
    {
      var item := parseAt(lines, currIndex);
      ghost var rest := MarkersFrom(lines, key, currIndex + 1);
      MarkersFromNext(lines, key, currIndex + 1);
      ghost var c: nat := currIndex;
      assert Pending(lines, key, c) == [c] + rest;
      MapResultStep(c, rest, f);
      if item.Failure? {
        return Failure(item.error);
      }
      PrefixedTwice(items, [item.value], MapResult(rest, f));
      items := items + [item.value];
      currIndex := GetNextIndex(lines, key, currIndex);
    }
    assert MapResult(Pending(lines, key, currIndex), f) == Success([]);
    assert items + [] == items;
    return Success(items);
  }

  /** `_extractItems` yields exactly one item per line equal to `key`, in the
      order of those lines, each parsed at its marker; it fails exactly when one
      of those records fails. */
  lemma ExtractedItemsPerMarker<T>(lines: seq<string>, key: string, parseAt: (seq<string>, nat) -> Result<T, ParseError>)
    ensures var r := ExtractedItems(lines, key, parseAt);
      var idx := MarkerIndices(lines, key);
      && (r.Success? <==> forall j :: 0 <= j < |idx| ==> parseAt(lines, idx[j]).Success?)
      && (r.Success? ==> |r.value| == |idx| && forall j :: 0 <= j < |idx| ==> r.value[j] == parseAt(lines, idx[j]).value)
      && (forall j, j' :: 0 <= j < j' < |idx| ==> idx[j] < idx[j'])
      && (forall i :: 0 <= i < |lines| ==> (lines[i] == key <==> i in idx))
  {
    var idx := MarkerIndices(lines, key);
    var f := ParserAt(lines, parseAt);
    MarkersFromSpec(lines, key, 0);
    assert forall j :: 0 <= j < |idx| ==> f(idx[j]) == parseAt(lines, idx[j]);
  }

  // ---------------------------------------------------------------------------
  // Employees (`_parseEmployeeData`)
  // ---------------------------------------------------------------------------

  /** `employeeData.split("\n").map((line) => line.trim())`. */
  function Lines(text: string): (lines: seq<string>)
    ensures |lines| == |Split(text, "\n")|
    ensures forall i :: 0 <= i < |lines| ==> lines[i] == Trim(Split(text, "\n")[i])
  {
    var parts := Split(text, "\n");
    seq(|parts|, i requires 0 <= i < |parts| => Trim(parts[i]))
  }

  /** One employee from its chunk's lines: id, name and surname on lines 0-2,
      department id and name on lines 4-5 (line 3 is the department header),
      then the salary and donation records found anywhere in the chunk. */
  function EmployeeFromLines(lines: seq<string>, num: Conversions): (r: Result<Employee, ParseError>)
    ensures r.Success? <==>
      && HasField(lines, 0) && HasField(lines, 1) && HasField(lines, 2)
      && HasField(lines, 4) && HasField(lines, 5)
      && ExtractedItems(lines, SalaryMarker, SalaryParser(num)).Success?
      && ExtractedItems(lines, DonationMarker, DonationParser(num)).Success?
    ensures r.Success? ==> r.value.id == num.parseInt(FieldAt(lines, 0).value)
    ensures r.Success? ==> r.value.name == FieldAt(lines, 1).value && r.value.surname == FieldAt(lines, 2).value
    ensures r.Success? ==> r.value.department == Department(num.parseInt(FieldAt(lines, 4).value), FieldAt(lines, 5).value)
    ensures r.Success? ==> r.value.salaries == ExtractedItems(lines, SalaryMarker, SalaryParser(num)).value
    ensures r.Success? ==> r.value.donations == ExtractedItems(lines, DonationMarker, DonationParser(num)).value
  {
    EmployeeFromFields(FieldAt(lines, 0), FieldAt(lines, 1), FieldAt(lines, 2), FieldAt(lines, 4), FieldAt(lines, 5),
                       ExtractedItems(lines, SalaryMarker, SalaryParser(num)),
                       ExtractedItems(lines, DonationMarker, DonationParser(num)), num)
  }

  /** The object literal of `_parseEmployeeData`, built from its property
      values in the order they are evaluated; the first one that threw is the
      error. */
  function EmployeeFromFields(idField: Result<string, ParseError>, nameField: Result<string, ParseError>,
                              surnameField: Result<string, ParseError>, departmentIdField: Result<string, ParseError>,
                              departmentNameField: Result<string, ParseError>, salariesField: Result<seq<Salary>, ParseError>,
                              donationsField: Result<seq<Donation>, ParseError>, num: Conversions): Result<Employee, ParseError>
  {
    var id :- idField;
    var name :- nameField;
    var surname :- surnameField;
    var departmentId :- departmentIdField;
    var departmentName :- departmentNameField;
    var salaries :- salariesField;
    var donations :- donationsField;
    Success(Employee(num.parseInt(id), name, surname,
                     Department(num.parseInt(departmentId), departmentName),
                     salaries, donations))
  }

  /** The callback of `_parseEmployeeData`'s `map`. */
  function ParseEmployee(chunk: string, num: Conversions): Result<Employee, ParseError>
  {
    EmployeeFromLines(Lines(chunk), num)
  }

  function EmployeeParser(num: Conversions): string -> Result<Employee, ParseError>
  {
    (chunk: string) => ParseEmployee(chunk, num)
  }

  /** `_parseEmployeeData`: one employee per chunk, in order. */
  function ParseEmployeeData(data: seq<string>, num: Conversions): (r: Result<seq<Employee>, ParseError>)
    ensures r.Success? ==> |r.value| == |data|
    ensures r.Success? <==> forall i :: 0 <= i < |data| ==> ParseEmployee(data[i], num).Success?
    ensures r.Success? ==> forall i :: 0 <= i < |data| ==> r.value[i] == ParseEmployee(data[i], num).value
  {
    var f := EmployeeParser(num);
    assert forall i :: 0 <= i < |data| ==> f(data[i]) == ParseEmployee(data[i], num);
    MapResult(data, f)
  }

  /** A well-formed employee header reads back as its values: id, name and
      surname from lines 0-2, the department from lines 4-5. */
  lemma EmployeeHeaderRoundTrip(lines: seq<string>, num: Conversions, keys: seq<string>, values: seq<string>)
    requires |lines| >= 6 && |keys| == 6 && |values| == 6
    requires forall j :: 0 <= j < 6 && j != 3 ==>
      lines[j] == FieldLine(keys[j], values[j]) && ':' !in keys[j] && ':' !in values[j] && IsTrimmed(values[j])
    requires EmployeeFromLines(lines, num).Success?
    ensures var e := EmployeeFromLines(lines, num).value;
      && e.id == num.parseInt(values[0]) && e.name == values[1] && e.surname == values[2]
      && e.department == Department(num.parseInt(values[4]), values[5])
  {
    FieldLineRoundTrip(keys[0], values[0]);
    FieldLineRoundTrip(keys[1], values[1]);
    FieldLineRoundTrip(keys[2], values[2]);
    FieldLineRoundTrip(keys[4], values[4]);
    FieldLineRoundTrip(keys[5], values[5]);
  }

  /** An employee has one salary per `Salary` line and one donation per
      `Donation` line of its chunk, in line order, each read at its marker. */
  lemma EmployeeRecordsPerMarker(lines: seq<string>, num: Conversions)
    requires EmployeeFromLines(lines, num).Success?
    ensures |EmployeeFromLines(lines, num).value.salaries| == |MarkerIndices(lines, SalaryMarker)|
    ensures forall j :: 0 <= j < |MarkerIndices(lines, SalaryMarker)| ==>
      EmployeeFromLines(lines, num).value.salaries[j] == ParseEmployeeSalary(lines, MarkerIndices(lines, SalaryMarker)[j], num).value
    ensures |EmployeeFromLines(lines, num).value.donations| == |MarkerIndices(lines, DonationMarker)|
    ensures forall j :: 0 <= j < |MarkerIndices(lines, DonationMarker)| ==>
      EmployeeFromLines(lines, num).value.donations[j] == ParseEmployeeDonation(lines, MarkerIndices(lines, DonationMarker)[j], num).value
  {
    ExtractedItemsPerMarker(lines, SalaryMarker, SalaryParser(num));
    ExtractedItemsPerMarker(lines, DonationMarker, DonationParser(num));
  }

  lemma {:induction false} MarkersAgree(lines: seq<string>, lines': seq<string>, key: string, from: nat)
    requires |lines| == |lines'|
    requires forall i :: from <= i < |lines| ==> (lines[i] == key <==> lines'[i] == key)
    ensures MarkersFrom(lines, key, from) == MarkersFrom(lines', key, from)
    decreases |lines| - from
  {
    if from < |lines| {
      MarkersAgree(lines, lines', key, from + 1);
    }
  }

  /** Line 3 of a chunk (the department header) is never read as a value:
      replacing it by any other line that is not a marker leaves the result
      unchanged. */
  lemma HeaderLineIgnored(lines: seq<string>, header: string, num: Conversions)
    requires |lines| > 3
    requires lines[3] != SalaryMarker && lines[3] != DonationMarker
    requires header != SalaryMarker && header != DonationMarker
    ensures EmployeeFromLines(lines[3 := header], num) == EmployeeFromLines(lines, num)
  {
    var lines' := lines[3 := header];
    assert forall i :: 0 <= i < |lines| && i != 3 ==> lines'[i] == lines[i];
    assert LineAt(lines', 0) == LineAt(lines, 0);
    assert LineAt(lines', 1) == LineAt(lines, 1);
    assert LineAt(lines', 2) == LineAt(lines, 2);
    assert LineAt(lines', 4) == LineAt(lines, 4);
    assert LineAt(lines', 5) == LineAt(lines, 5);
    if HasField(lines, 0) && HasField(lines, 1) && HasField(lines, 2) {
      forall p: nat | p > 3 ensures SalaryParser(num)(lines, p) == SalaryParser(num)(lines', p)
        && DonationParser(num)(lines, p) == DonationParser(num)(lines', p)
      {
        RecordParsersReadOnlyTheirLines(lines, lines', p, num);
      }
      ExtractionIgnoresHeader(lines, lines', SalaryMarker, SalaryParser(num));
      ExtractionIgnoresHeader(lines, lines', DonationMarker, DonationParser(num));
    }
  }

  lemma ExtractionIgnoresHeader<T>(lines: seq<string>, lines': seq<string>, key: string,
                                   parseAt: (seq<string>, nat) -> Result<T, ParseError>)
    requires ':' !in key
    requires |lines| == |lines'| > 3
    requires forall i :: 0 <= i < |lines| && i != 3 ==> lines'[i] == lines[i]
    requires lines[3] != key && lines'[3] != key
    requires HasField(lines, 0) && HasField(lines, 1) && HasField(lines, 2)
    requires forall p: nat :: p > 3 ==> parseAt(lines, p) == parseAt(lines', p)
    ensures ExtractedItems(lines, key, parseAt) == ExtractedItems(lines', key, parseAt)
  {
    MarkersAgree(lines, lines', key, 0);
    MarkersFromSpec(lines, key, 0);
    var idx := MarkerIndices(lines, key);
    assert lines[0] != key && lines[1] != key && lines[2] != key;
    forall j | 0 <= j < |idx| ensures ParserAt(lines, parseAt)(idx[j]) == ParserAt(lines', parseAt)(idx[j]) {
      assert lines[idx[j]] == key;
      assert idx[j] > 3;
    }
    MapResultCongruent(idx, ParserAt(lines, parseAt), ParserAt(lines', parseAt));
  }

  // ---------------------------------------------------------------------------
  // Departments (`_parseDepartmentData`)
  // ---------------------------------------------------------------------------

  function DepartmentsOf(employees: seq<Employee>): (ds: seq<Department>)
    ensures |ds| == |employees|
    ensures forall i :: 0 <= i < |employees| ==> ds[i] == employees[i].department
  {
    seq(|employees|, i requires 0 <= i < |employees| => employees[i].department)
  }

  /** No department before position `i` has the same id (under `===`). */
  predicate IsFirst(ds: seq<Department>, i: int)
    requires 0 <= i < |ds|
  {
    forall j :: 0 <= j < i ==> !StrictEquals(ds[j].id, ds[i].id)
  }

  /** The departments among the first `n` whose id no earlier department has,
      in their order. */
  function FirstOccurrencesUpTo(ds: seq<Department>, n: nat): seq<Department>
    requires n <= |ds|
  {
    if n == 0 then []
    else FirstOccurrencesUpTo(ds, n - 1) + (if IsFirst(ds, n - 1) then [ds[n - 1]] else [])
  }

  function FirstOccurrences(ds: seq<Department>): seq<Department>
  {
    FirstOccurrencesUpTo(ds, |ds|)
  }

  /** `departments.find((dept) => dept.id === id)`. */
  function FindDepartment(departments: seq<Department>, id: IntValue): (r: Option<Department>)
    ensures r.None? <==> forall k :: 0 <= k < |departments| ==> !StrictEquals(departments[k].id, id)
    ensures r.Some? ==> r.value in departments && StrictEquals(r.value.id, id)
  {
    if departments == [] then None
    else if StrictEquals(departments[0].id, id) then Some(departments[0])
    else FindDepartment(departments[1..], id)
  }

  /** The first occurrences are exactly the departments at the positions `pos`,
      which increase, and which are all the first positions below `n`. */
  lemma {:induction false} FirstOccurrencePositions(ds: seq<Department>, n: nat) returns (pos: seq<nat>)
    requires n <= |ds|
    ensures |pos| == |FirstOccurrencesUpTo(ds, n)|
    ensures forall k :: 0 <= k < |pos| ==> pos[k] < n && IsFirst(ds, pos[k]) && FirstOccurrencesUpTo(ds, n)[k] == ds[pos[k]]
    ensures forall k, k' :: 0 <= k < k' < |pos| ==> pos[k] < pos[k']
    ensures forall i :: 0 <= i < n && IsFirst(ds, i) ==> i in pos
    decreases n
  {
    if n == 0 {
      pos := [];
    } else {
      var prev := FirstOccurrencePositions(ds, n - 1);
      var r0 := FirstOccurrencesUpTo(ds, n - 1);
      var r := FirstOccurrencesUpTo(ds, n);
      if IsFirst(ds, n - 1) {
        pos := prev + [n - 1];
        assert r == r0 + [ds[n - 1]];
        forall k | 0 <= k < |pos| ensures pos[k] < n && IsFirst(ds, pos[k]) && r[k] == ds[pos[k]] {
          if k < |prev| {
            assert pos[k] == prev[k] && r[k] == r0[k];
          }
        }
        forall k, k' | 0 <= k < k' < |pos| ensures pos[k] < pos[k'] {
          assert pos[k] == prev[k];
        }
        forall i | 0 <= i < n && IsFirst(ds, i) ensures i in pos {
          if i < n - 1 {
            assert i in prev;
          } else {
            assert pos[|prev|] == i;
          }
        }
      } else {
        pos := prev;
        assert r == r0 + [];
      }
    }
  }

  /** Some first position holds the same id as position `j`. */
  lemma {:induction false} EarliestWithSameId(ds: seq<Department>, j: nat) returns (j0: nat)
    requires j < |ds|
    ensures j0 <= j && IsFirst(ds, j0) && ds[j0].id == ds[j].id
    decreases j
  {
    if IsFirst(ds, j) {
      j0 := j;
    } else {
      var j' :| 0 <= j' < j && StrictEquals(ds[j'].id, ds[j].id);
      j0 := EarliestWithSameId(ds, j');
    }
  }

  /** The search in `_parseDepartmentData` finds nothing exactly when the
      current department is the first with its id. */
  lemma FindAmongFirstOccurrences(ds: seq<Department>, i: nat)
    requires i < |ds|
    ensures FindDepartment(FirstOccurrencesUpTo(ds, i), ds[i].id).None? <==> IsFirst(ds, i)
  {
    var pos := FirstOccurrencePositions(ds, i);
    var r := FirstOccurrencesUpTo(ds, i);
    if !IsFirst(ds, i) {
      var j :| 0 <= j < i && StrictEquals(ds[j].id, ds[i].id);
      var j0 := EarliestWithSameId(ds, j);
      assert j0 in pos;
      var k :| 0 <= k < |pos| && pos[k] == j0;
      assert StrictEquals(r[k].id, ds[i].id);
    }
  }

  /** `_parseDepartmentData`: walk the employees and append a department when
      none with the same id (under `===`) has been appended yet. */
  method ParseDepartmentData(employees: seq<Employee>) returns (departments: seq<Department>)
    ensures departments == FirstOccurrences(DepartmentsOf(employees))
  {
    ghost var ds := DepartmentsOf(employees);
    departments := [];
    for i := 0 to |employees|
      invariant departments == FirstOccurrencesUpTo(ds, i)
    {
      var employee := employees[i];
      var department := FindDepartment(departments, employee.department.id);
      FindAmongFirstOccurrences(ds, i);
      if department.None? {
        departments := departments + [Department(employee.department.id, employee.department.name)];
      }
    }
  }

  /** No two departments have the same id under `===`. */
  predicate IdsDistinct(departments: seq<Department>)
  {
    forall a, b :: 0 <= a < b < |departments| ==> !StrictEquals(departments[a].id, departments[b].id)
  }

  /** Some department carries `id`. */
  predicate HasId(departments: seq<Department>, id: IntValue)
  {
    exists k :: 0 <= k < |departments| && departments[k].id == id
  }

  /** The departments `_parseDepartmentData` returns have pairwise different
      ids, include the id of every employee's department, and each is the
      department of an employee before whom no employee had that id (the first
      name wins); they come in order of first appearance by construction. */
  lemma DepartmentsDeduplicated(employees: seq<Employee>)
    ensures IdsDistinct(FirstOccurrences(DepartmentsOf(employees)))
    ensures forall i :: 0 <= i < |employees| ==> HasId(FirstOccurrences(DepartmentsOf(employees)), employees[i].department.id)
    ensures forall k :: 0 <= k < |FirstOccurrences(DepartmentsOf(employees))| ==>
      exists i :: 0 <= i < |employees| && IsFirst(DepartmentsOf(employees), i)
                  && FirstOccurrences(DepartmentsOf(employees))[k] == employees[i].department
  {
    var ds := DepartmentsOf(employees);
    var r := FirstOccurrences(ds);
    var pos := FirstOccurrencePositions(ds, |ds|);
    forall a, b | 0 <= a < b < |r| ensures !StrictEquals(r[a].id, r[b].id) {
      assert IsFirst(ds, pos[b]) && pos[a] < pos[b];
    }
    forall i | 0 <= i < |employees| ensures HasId(r, employees[i].department.id) {
      var j0 := EarliestWithSameId(ds, i);
      assert j0 in pos;
      var k :| 0 <= k < |pos| && pos[k] == j0;
      assert r[k].id == employees[i].department.id;
    }
    forall k | 0 <= k < |r|
      ensures exists i :: 0 <= i < |employees| && IsFirst(ds, i) && r[k] == employees[i].department
    {
      assert IsFirst(ds, pos[k]) && r[k] == employees[pos[k]].department;
    }
  }

  /** With numeric ids only, no two departments share an id at all. */
  lemma NumericDepartmentIdsDistinct(employees: seq<Employee>)
    requires forall i :: 0 <= i < |employees| ==> employees[i].department.id.Int?
    ensures forall a, b :: 0 <= a < b < |FirstOccurrences(DepartmentsOf(employees))| ==>
      FirstOccurrences(DepartmentsOf(employees))[a].id != FirstOccurrences(DepartmentsOf(employees))[b].id
  {
    var ds := DepartmentsOf(employees);
    var r := FirstOccurrences(ds);
    var pos := FirstOccurrencePositions(ds, |ds|);
    DepartmentsDeduplicated(employees);
    forall a, b | 0 <= a < b < |r| ensures r[a].id != r[b].id {
      assert r[a] == ds[pos[a]] && r[b] == ds[pos[b]];
      assert !StrictEquals(r[a].id, r[b].id);
    }
  }

  // ---------------------------------------------------------------------------
  // Exchange rates and the whole parse (`_parseExchangeRates`, `parse`)
  // ---------------------------------------------------------------------------

  /** `_parseExchangeRates`: the records after each `Rate` marker. */
  function ParseExchangeRates(data: string, num: Conversions): (r: Result<seq<ExchangeRate>, ParseError>)
    ensures r.Success? <==> forall j :: 0 <= j < |MarkerIndices(Lines(data), ExchangeRateMarker)| ==>
      ParseExchangeRate(Lines(data), MarkerIndices(Lines(data), ExchangeRateMarker)[j], num).Success?
    ensures r.Success? ==> |r.value| == |MarkerIndices(Lines(data), ExchangeRateMarker)|
    ensures r.Success? ==> forall j :: 0 <= j < |MarkerIndices(Lines(data), ExchangeRateMarker)| ==>
      r.value[j] == ParseExchangeRate(Lines(data), MarkerIndices(Lines(data), ExchangeRateMarker)[j], num).value
  {
    ExtractedItemsPerMarker(Lines(data), ExchangeRateMarker, ExchangeRateParser(num));
    ExtractedItems(Lines(data), ExchangeRateMarker, ExchangeRateParser(num))
  }

  /** `parse`: segment, normalise, then read employees, departments and rates. */
  function Parse(data: string, num: Conversions): (r: Result<ParsedDump, ParseError>)
    ensures !Contains(data, EmployeeToken) ==> r == Failure(MissingEmployeeBlock)
    ensures r.Success? ==> r.value.departments == FirstOccurrences(DepartmentsOf(r.value.employees))
  {
    SectionsShape(data, EmployeeToken, RatesToken);
    match Sections(data, EmployeeToken, RatesToken)
    case Failure(e) => Failure(e)
    case Success((chunks, ratesText)) => ParseSections(chunks, ratesText, num)
  }

  /** The part of `parse` after `_splitData`. A missing rates section surfaces
      when `_replaceNewLines` reads `replace` of `undefined`, before any
      employee is read. */
  function ParseSections(chunks: seq<string>, ratesText: Option<string>, num: Conversions): (r: Result<ParsedDump, ParseError>)
    ensures ratesText.None? ==> r == Failure(MissingRatesBlock)
    ensures r.Success? <==>
      && ratesText.Some?
      && ParseEmployeeData(PrepareData(chunks), num).Success?
      && ParseExchangeRates(ReplaceNewLines(ratesText.value), num).Success?
    ensures r.Success? ==> r.value.departments == FirstOccurrences(DepartmentsOf(r.value.employees))
  {
    var employeeData := PrepareData(chunks);
    match ratesText
    case None => Failure(MissingRatesBlock)
    case Some(text) =>
      var exchangeRatesData := ReplaceNewLines(text);
      match ParseEmployeeData(employeeData, num)
      case Failure(e) => Failure(e)
      case Success(employees) =>
        var departments := FirstOccurrences(DepartmentsOf(employees));
        match ParseExchangeRates(exchangeRatesData, num)
        case Failure(e) => Failure(e)
        case Success(exchangeRates) => Success(ParsedDump(employees, departments, exchangeRates))
  }

  /** What a successful `parse` of the sections consists of. */
  lemma ParseSectionsShape(chunks: seq<string>, ratesText: Option<string>, num: Conversions)
    requires ParseSections(chunks, ratesText, num).Success?
    ensures ratesText.Some?
    ensures ParseEmployeeData(PrepareData(chunks), num) == Success(ParseSections(chunks, ratesText, num).value.employees)
    ensures ParseExchangeRates(ReplaceNewLines(ratesText.value), num) == Success(ParseSections(chunks, ratesText, num).value.exchangeRates)
    ensures ParseSections(chunks, ratesText, num).value.departments
              == FirstOccurrences(DepartmentsOf(ParseSections(chunks, ratesText, num).value.employees))
  {
  }

  /** `parse` returns a result exactly when the dump has "Employee", "Rates"
      follows in the last employee chunk, every normalised chunk yields an
      employee and the normalised rates text yields its rates. */
  lemma ParseSucceeds(data: string, num: Conversions)
    ensures Parse(data, num).Success? <==>
      && Sections(data, EmployeeToken, RatesToken).Success?
      && Sections(data, EmployeeToken, RatesToken).value.1.Some?
      && ParseEmployeeData(PrepareData(Sections(data, EmployeeToken, RatesToken).value.0), num).Success?
      && ParseExchangeRates(ReplaceNewLines(Sections(data, EmployeeToken, RatesToken).value.1.value), num).Success?
  {
    match Sections(data, EmployeeToken, RatesToken)
    case Failure(_) =>
    case Success((chunks, ratesText)) =>
      assert Parse(data, num) == ParseSections(chunks, ratesText, num);
  }

  /** A successful parse has one employee per occurrence of "Employee", each
      read from its normalised chunk, the departments of those employees
      without repetitions, and the rates read from the normalised text after
      "Rates". */
  lemma ParseShape(data: string, num: Conversions)
    requires Parse(data, num).Success?
    ensures Sections(data, EmployeeToken, RatesToken).Success?
    ensures Sections(data, EmployeeToken, RatesToken).value.1.Some?
    ensures |Parse(data, num).value.employees| == Count(data, EmployeeToken)
                                                == |Sections(data, EmployeeToken, RatesToken).value.0|
    ensures forall i :: 0 <= i < |Sections(data, EmployeeToken, RatesToken).value.0| ==>
      Parse(data, num).value.employees[i]
        == ParseEmployee(ReplaceNewLines(Sections(data, EmployeeToken, RatesToken).value.0[i]), num).value
    ensures Parse(data, num).value.departments == FirstOccurrences(DepartmentsOf(Parse(data, num).value.employees))
    ensures ParseExchangeRates(ReplaceNewLines(Sections(data, EmployeeToken, RatesToken).value.1.value), num)
              == Success(Parse(data, num).value.exchangeRates)
  {
    SectionsShape(data, EmployeeToken, RatesToken);
    var s := Sections(data, EmployeeToken, RatesToken);
    ParseSectionsShape(s.value.0, s.value.1, num);
    var employees := ParseEmployeeData(PrepareData(s.value.0), num);
    assert employees.Success?;
  }
}
