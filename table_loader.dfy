/**
 * The tab-delimited term-document table reader (`load_tdf`), starting from the
 * lines already read from the file. `float()` is the parameter `parse`, which
 * yields None where `float()` raises ValueError.
 */
module TableLoader {
  import opened Wrappers

  /** The table `load_tdf` returns: row labels, column labels and one data row per row label. */
  datatype Table = Table(rownames: seq<string>, colnames: seq<string>, data: seq<seq<real>>)

  /** Why `load_tdf` raises: no header line (IndexError on `lines[0]`), or `float()` refused a field of line `line`. */
  datatype LoadError = NoHeader | NotANumber(line: nat)

  /** The characters `str.strip()` removes from a byte string: space, \t, \n, \v, \f and \r. */
  predicate IsSpace(c: char) {
    c == ' ' || 9 <= c as int <= 13
  }

  /** Leading whitespace removed. */
  function TrimLeft(s: string): (r: string)
    ensures |r| <= |s| && r == s[|s| - |r|..]
    ensures r != [] ==> !IsSpace(r[0])
    ensures forall k :: 0 <= k < |s| - |r| ==> IsSpace(s[k])
  {
    if s != [] && IsSpace(s[0]) then TrimLeft(s[1..]) else s
  }

  /** Trailing whitespace removed. */
  function TrimRight(s: string): (r: string)
    ensures |r| <= |s| && r == s[..|r|]
    ensures r != [] ==> !IsSpace(r[|r| - 1])
    ensures forall k :: |r| <= k < |s| ==> IsSpace(s[k])
  {
    if s != [] && IsSpace(s[|s| - 1]) then TrimRight(s[..|s| - 1]) else s
  }

  /** `s.strip()`: the longest slice of `s` that starts and ends with a non-space character. */
  function Strip(s: string): (r: string)
    ensures |r| <= |s|
    ensures r != [] ==> !IsSpace(r[0]) && !IsSpace(r[|r| - 1])
    ensures r == [] <==> forall k :: 0 <= k < |s| ==> IsSpace(s[k])
  {
    var t := TrimLeft(s);
    var r := TrimRight(t);
    assert r != [] ==> r[0] == t[0];
    assert r == [] ==> t == [];
    r
  }

  /** Where `s.strip()` starts in `s`: the number of leading whitespace characters. */
  function StripStart(s: string): nat {
    |s| - |TrimLeft(s)|
  }

  /** The stripped line is the slice of the line at `StripStart`, with only whitespace cut off on either side. */
  lemma StripSlice(s: string)
    ensures StripStart(s) + |Strip(s)| <= |s|
    ensures Strip(s) == s[StripStart(s)..][..|Strip(s)|]
    ensures forall k :: 0 <= k < StripStart(s) ==> IsSpace(s[k])
    ensures forall k :: StripStart(s) + |Strip(s)| <= k < |s| ==> IsSpace(s[k])
  {
    var t := TrimLeft(s);
    var r := TrimRight(t);
    assert Strip(s) == r;
    var a := |s| - |t|;
    assert t == s[a..];
    forall k | a + |r| <= k < |s| ensures IsSpace(s[k]) {
      assert |r| <= k - a < |t|;
      assert IsSpace(t[k - a]);
    }
  }

  lemma {:induction false} StripIdempotent(s: string)
    ensures Strip(Strip(s)) == Strip(s)
  {
    var r := Strip(s);
    assert TrimLeft(r) == r;
    assert TrimRight(r) == r;
  }

  /** `s.split(sep)`: the pieces of `s` between occurrences of `sep`, empty pieces included. */
  function Split(s: string, sep: char): (fields: seq<string>)
    ensures |fields| >= 1
    ensures forall k :: 0 <= k < |fields| ==> sep !in fields[k]
  {
    if s == [] then [[]]
    else
      var rest := Split(s[1..], sep);
      if s[0] == sep then [[]] + rest
      else [[s[0]] + rest[0]] + rest[1..]
  }

  /** `sep.join(fields)`: the inverse of Split. */
  function Join(fields: seq<string>, sep: char): string
    requires |fields| >= 1
  {
    if |fields| == 1 then fields[0] else fields[0] + [sep] + Join(fields[1..], sep)
  }

  /** Joining the pieces again gives back the split string. */
  lemma {:induction false} JoinSplit(s: string, sep: char)
    ensures Join(Split(s, sep), sep) == s
  {
    if s != [] {
      var rest := Split(s[1..], sep);
      JoinSplit(s[1..], sep);
      if s[0] == sep {
        assert Split(s, sep)[1..] == rest;
      } else {
        var f := Split(s, sep);
        assert f[1..] == rest[1..];
        if |rest| == 1 {
          assert Join(f, sep) == [s[0]] + rest[0];
        } else {
          assert Join(f, sep) == [s[0]] + rest[0] + [sep] + Join(rest[1..], sep);
        }
        assert s == [s[0]] + s[1..];
      }
    }
  }

  lemma {:induction false} SplitPrefix(f: string, t: string, sep: char)
    requires sep !in f
    ensures Split(f + t, sep) == [f + Split(t, sep)[0]] + Split(t, sep)[1..]
  {
    if f != [] {
      SplitPrefix(f[1..], t, sep);
      var st := Split(t, sep);
      var rest := Split(f[1..] + t, sep);
      assert (f + t)[0] == f[0] && (f + t)[1..] == f[1..] + t;
      assert f[0] != sep by { assert f[0] in f; }
      assert Split(f + t, sep) == [[f[0]] + rest[0]] + rest[1..];
      assert rest[0] == f[1..] + st[0] && rest[1..] == st[1..];
      assert [f[0]] + (f[1..] + st[0]) == f + st[0];
    } else {
      assert f + t == t;
      assert f + Split(t, sep)[0] == Split(t, sep)[0];
    }
  }

  /** Splitting a join of separator-free pieces gives back the pieces. */
  lemma {:induction false} SplitJoin(fields: seq<string>, sep: char)
    requires |fields| >= 1
    requires forall k :: 0 <= k < |fields| ==> sep !in fields[k]
    ensures Split(Join(fields, sep), sep) == fields
  {
    if |fields| == 1 {
      SplitPrefix(fields[0], [], sep);
      assert fields[0] + [] == fields[0];
    } else {
      var j := Join(fields[1..], sep);
      SplitJoin(fields[1..], sep);
      assert Split([sep] + j, sep) == [[]] + fields[1..];
      SplitPrefix(fields[0], [sep] + j, sep);
      assert fields[0] + [sep] + j == fields[0] + ([sep] + j);
      assert fields[0] + [] == fields[0];
    }
  }

  /** The tab-separated fields of a line once its surrounding whitespace is stripped. */
  function Fields(line: string): seq<string> {
    Split(Strip(line), '\t')
  }

  /** `[float(x) for x in fields]`: None as soon as one field is refused. */
  function ParseFloats(fields: seq<string>, parse: string -> Option<real>): (r: Option<seq<real>>)
    ensures r.Some? <==> forall k :: 0 <= k < |fields| ==> parse(fields[k]).Some?
    ensures r.Some? ==> |r.value| == |fields|
    ensures r.Some? ==> forall k :: 0 <= k < |fields| ==> parse(fields[k]) == Some(r.value[k])
  {
    if fields == [] then Some([])
    else
      match parse(fields[0])
      case None => None
      case Some(x) =>
        match ParseFloats(fields[1..], parse)
        case None => None
        case Some(xs) => Some([x] + xs)
  }

  /** One data line: its first field is the row label, the others its values. */
  function ParseLine(line: string, parse: string -> Option<real>): Option<(string, seq<real>)> {
    var p := Fields(line);
    match ParseFloats(p[1..], parse)
    case None => None
    case Some(row) => Some((p[0], row))
  }

  /** `ParseLine` as a value, to hand to the loop over the data lines. */
  function LineParser(parse: string -> Option<real>): string -> Option<(string, seq<real>)> {
    line => ParseLine(line, parse)
  }

  /**
   * The loop over the lines after the header, in order, each parsed by
   * `parseLine`; a failure carries the index of the first bad line.
   */
  function ParseBody(body: seq<string>, parseLine: string -> Option<(string, seq<real>)>): (r: Result<(seq<string>, seq<seq<real>>), nat>)
    ensures r.Success? ==> |r.value.0| == |body| && |r.value.1| == |body|
    ensures r.Failure? ==> r.error < |body|
  {
    if body == [] then Success(([], []))
    else
      match ParseBody(body[..|body| - 1], parseLine)
      case Failure(k) => Failure(k)
      case Success(acc) =>
        match parseLine(body[|body| - 1])
        case None => Failure(|body| - 1)
        case Some(entry) => Success((acc.0 + [entry.0], acc.1 + [entry.1]))
  }

  /** A loop that failed at line i still reports line i once later lines are added. */
  lemma {:induction false} ParseBodyFailureStays(body: seq<string>, parseLine: string -> Option<(string, seq<real>)>, i: nat)
    requires i < |body|
    requires ParseBody(body[..i + 1], parseLine) == Failure(i)
    ensures ParseBody(body, parseLine) == Failure(i)
  {
    if |body| > i + 1 {
      var init := body[..|body| - 1];
      assert init[..i + 1] == body[..i + 1];
      ParseBodyFailureStays(init, parseLine, i);
      ParseBodyFailureExtends(body, parseLine);
    } else {
      assert body[..i + 1] == body;
    }
  }

  /** Once the prefix has failed, one more line changes nothing. */
  lemma ParseBodyFailureExtends(body: seq<string>, parseLine: string -> Option<(string, seq<real>)>)
    requires body != [] && ParseBody(body[..|body| - 1], parseLine).Failure?
    ensures ParseBody(body, parseLine) == ParseBody(body[..|body| - 1], parseLine)
  {
  }

  /** After a successful prefix, the body fails exactly when its last line does, and then at that line. */
  lemma ParseBodyLastLine(body: seq<string>, parseLine: string -> Option<(string, seq<real>)>)
    requires body != [] && ParseBody(body[..|body| - 1], parseLine).Success?
    ensures ParseBody(body, parseLine).Failure? <==> parseLine(body[|body| - 1]).None?
    ensures ParseBody(body, parseLine).Failure? ==> ParseBody(body, parseLine).error == |body| - 1
  {
  }

  lemma {:induction false} ParseBodySuccess(body: seq<string>, parseLine: string -> Option<(string, seq<real>)>)
    ensures ParseBody(body, parseLine).Success? <==> forall k :: 0 <= k < |body| ==> parseLine(body[k]).Some?
    ensures ParseBody(body, parseLine).Success? ==>
      |ParseBody(body, parseLine).value.0| == |body| && |ParseBody(body, parseLine).value.1| == |body|
    ensures ParseBody(body, parseLine).Success? ==>
      forall k :: 0 <= k < |body| ==>
        parseLine(body[k]) == Some((ParseBody(body, parseLine).value.0[k], ParseBody(body, parseLine).value.1[k]))
  {
    if body != [] {
      var n := |body| - 1;
      var init := body[..n];
      ParseBodySuccess(init, parseLine);
      var p := ParseBody(init, parseLine);
      var line := parseLine(body[n]);
      if p.Success? && line.Some? {
        var acc := ParseBody(body, parseLine).value;
        assert acc == (p.value.0 + [line.value.0], p.value.1 + [line.value.1]);
        forall k | 0 <= k < |body| ensures parseLine(body[k]) == Some((acc.0[k], acc.1[k])) {
          if k < n {
            assert init[k] == body[k];
            assert acc.0[k] == p.value.0[k] && acc.1[k] == p.value.1[k];
          }
        }
      } else if p.Failure? {
        var k :| 0 <= k < n && parseLine(init[k]).None?;
        assert init[k] == body[k];
      }
    }
  }

  /** A failing loop names a line that does not parse. */
  lemma {:induction false} ParseBodyFailingLine(body: seq<string>, parseLine: string -> Option<(string, seq<real>)>)
    ensures ParseBody(body, parseLine).Failure? ==>
      ParseBody(body, parseLine).error < |body| && parseLine(body[ParseBody(body, parseLine).error]).None?
  {
    if body != [] {
      var n := |body| - 1;
      var init := body[..n];
      if ParseBody(init, parseLine).Failure? {
        ParseBodyFailingLine(init, parseLine);
        ParseBodyFailureExtends(body, parseLine);
        assert init[ParseBody(init, parseLine).error] == body[ParseBody(init, parseLine).error];
      } else {
        ParseBodyLastLine(body, parseLine);
      }
    }
  }

  /** Every line before the one a failing loop names parses. */
  lemma {:induction false} ParseBodyLinesBeforeFailure(body: seq<string>, parseLine: string -> Option<(string, seq<real>)>)
    ensures ParseBody(body, parseLine).Failure? ==>
      forall k :: 0 <= k < ParseBody(body, parseLine).error && k < |body| ==> parseLine(body[k]).Some?
  {
    if body != [] {
      var n := |body| - 1;
      var init := body[..n];
      var p := ParseBody(init, parseLine);
      if p.Failure? {
        ParseBodyLinesBeforeFailure(init, parseLine);
        ParseBodyFailingLine(init, parseLine);
        ParseBodyFailureExtends(body, parseLine);
        forall k | 0 <= k < p.error
          ensures parseLine(body[k]).Some?
        {
          assert init[k] == body[k];
        }
      } else {
        ParseBodySuccess(init, parseLine);
        ParseBodyLastLine(body, parseLine);
        forall k | 0 <= k < n
          ensures parseLine(body[k]).Some?
        {
          assert init[k] == body[k];
        }
      }
    }
  }

  /** A failing loop stops at the first line whose fields do not all parse. */
  lemma ParseBodyFirstFailure(body: seq<string>, parseLine: string -> Option<(string, seq<real>)>)
    ensures ParseBody(body, parseLine).Failure? ==>
      ParseBody(body, parseLine).error < |body| && parseLine(body[ParseBody(body, parseLine).error]).None?
    ensures ParseBody(body, parseLine).Failure? ==>
      forall k :: 0 <= k < ParseBody(body, parseLine).error ==> parseLine(body[k]).Some?
  {
    ParseBodyFailingLine(body, parseLine);
    ParseBodyLinesBeforeFailure(body, parseLine);
  }

  /** What `load_tdf` returns or raises, given the file's lines. */
  function ParseTable(lines: seq<string>, parse: string -> Option<real>): (r: Result<Table, LoadError>)
    ensures r == Failure(NoHeader) <==> lines == []
    ensures r.Success? ==> |r.value.rownames| == |lines| - 1 && |r.value.data| == |lines| - 1
    ensures r.Failure? && r.error.NotANumber? ==> 1 <= r.error.line < |lines|
  {
    if lines == [] then Failure(NoHeader)
    else
      match ParseBody(lines[1..], LineParser(parse))
      case Failure(k) => Failure(NotANumber(k + 1))
      case Success(body) => Success(Table(body.0, Fields(lines[0])[1..], body.1))
  }

  /**
   * What `load_tdf` promises: no lines means no header; otherwise the column
   * labels are the header's fields minus the first, row k is line k+1's first
   * field and its parsed remaining fields, and a failure names the first line
   * holding a field `float()` refuses.
   */
  lemma LoadTdfMeaning(lines: seq<string>, parse: string -> Option<real>)
    ensures lines == [] ==> ParseTable(lines, parse) == Failure(NoHeader)
    ensures ParseTable(lines, parse).Success? <==>
      lines != [] && forall k :: 1 <= k < |lines| ==> ParseLine(lines[k], parse).Some?
    ensures ParseTable(lines, parse).Success? ==>
      var t := ParseTable(lines, parse).value;
      t.colnames == Fields(lines[0])[1..] &&
      |t.rownames| == |lines| - 1 && |t.data| == |lines| - 1 &&
      forall k :: 0 <= k < |lines| - 1 ==>
        t.rownames[k] == Fields(lines[k + 1])[0] &&
        ParseFloats(Fields(lines[k + 1])[1..], parse) == Some(t.data[k])
    ensures ParseTable(lines, parse).Failure? && lines != [] ==>
      var e := ParseTable(lines, parse).error;
      e.NotANumber? && 1 <= e.line < |lines| &&
      ParseFloats(Fields(lines[e.line])[1..], parse).None? &&
      forall k :: 1 <= k < e.line ==> ParseLine(lines[k], parse).Some?
  {
    if lines != [] {
      var body := lines[1..];
      var parseLine := LineParser(parse);
      if ParseBody(body, parseLine).Success? {
        ParseBodySuccess(body, parseLine);
        var acc := ParseBody(body, parseLine).value;
        forall k | 0 <= k < |lines| - 1
          ensures acc.0[k] == Fields(lines[k + 1])[0] && ParseFloats(Fields(lines[k + 1])[1..], parse) == Some(acc.1[k])
        {
          assert lines[k + 1] == body[k];
          assert parseLine(body[k]) == Some((acc.0[k], acc.1[k]));
        }
        forall k | 1 <= k < |lines| ensures ParseLine(lines[k], parse).Some? {
          assert lines[k] == body[k - 1];
          assert parseLine(body[k - 1]).Some?;
        }
      } else {
        ParseBodyFirstFailure(body, parseLine);
        var e := ParseBody(body, parseLine).error;
        assert lines[e + 1] == body[e];
        assert parseLine(body[e]).None?;
        forall k | 1 <= k < e + 1 ensures ParseLine(lines[k], parse).Some? {
          assert lines[k] == body[k - 1];
          assert parseLine(body[k - 1]).Some?;
        }
      }
    }
  }

  /** Parsing one more line extends the row labels and data rows, or fails at that line for good. */
  lemma ParseBodyStep(body: seq<string>, parseLine: string -> Option<(string, seq<real>)>, i: nat,
                      names: seq<string>, data: seq<seq<real>>)
    requires i < |body|
    requires ParseBody(body[..i], parseLine) == Success((names, data))
    ensures parseLine(body[i]).None? ==> ParseBody(body, parseLine) == Failure(i)
    ensures parseLine(body[i]).Some? ==>
      ParseBody(body[..i + 1], parseLine) ==
        Success((names + [parseLine(body[i]).value.0], data + [parseLine(body[i]).value.1]))
  {
    assert body[..i + 1][..i] == body[..i];
    assert body[..i + 1][i] == body[i];
    if parseLine(body[i]).None? {
      ParseBodyFailureStays(body, parseLine, i);
    }
  }

  /** `load_tdf`: header first, then one appended row label and data row per later line. */
  method LoadTdf(lines: seq<string>, parse: string -> Option<real>) returns (r: Result<Table, LoadError>)
    ensures r == ParseTable(lines, parse)
  {
    if |lines| == 0 {
      return Failure(NoHeader);
    }
    var colnames := Fields(lines[0])[1..];
    var rownames: seq<string> := [];
    var data: seq<seq<real>> := [];
    var body := lines[1..];
    for i := 0 to |body|
      invariant |rownames| == i
      invariant ParseBody(body[..i], LineParser(parse)) == Success((rownames, data))
    {
      ParseBodyStep(body, LineParser(parse), i, rownames, data);
      assert LineParser(parse)(body[i]) == ParseLine(body[i], parse);
      var p := Fields(body[i]);
      rownames := rownames + [p[0]];
      var row := ParseFloats(p[1..], parse);
      if row.None? {
        return Failure(NotANumber(i + 1));
      }
      data := data + [row.value];
    }
    assert body[..|body|] == body;
    return Success(Table(rownames, colnames, data));
  }
}
