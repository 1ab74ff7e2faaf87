/**
 * The string helpers of nav2_util: removing a leading slash from a topic
 * name, splitting at a delimiter, parsing a bracketed vector of vectors of
 * floats ("[[1.0, 2.0], [3.3, 4.4, 5.5]]") and turning such a string into
 * a list of points.
 *
 * The parser reads characters one at a time from a stream. The float it
 * extracts at depth 2 is abstracted: the stream skips white space, takes
 * the longest run of number characters, and a reader given as a parameter
 * turns that run into a value or reports that it is not a float. An empty
 * run or a rejected run puts the stream into its failed state.
 */
module StringUtils {

  import opened Wrappers
  import opened Geometry

  // ------------------------------------------------------------------
  // strip_leading_slash
  // ------------------------------------------------------------------

  /** Removes at most one character, from the front, exactly when it is '/'. */
  function StripLeadingSlash(s: string): (r: string)
    ensures |s| - 1 <= |r| <= |s|
    ensures r == s[|s| - |r|..]
    ensures |r| < |s| <==> (|s| > 0 && s[0] == '/')
  {
    if |s| > 0 && s[0] == '/' then s[1..] else s
  }

  /** Prefixing a name with one slash and stripping it gives the name back. */
  lemma StripLeadingSlashUndoesPrefix(s: string)
    ensures StripLeadingSlash("/" + s) == s
  {
    assert ("/" + s)[1..] == s;
  }

  // ------------------------------------------------------------------
  // split
  // ------------------------------------------------------------------

  /** The parts with `sep` between consecutive ones. */
  function Join(parts: seq<string>, sep: string): string
  {
    if |parts| == 0 then ""
    else if |parts| == 1 then parts[0]
    else parts[0] + sep + Join(parts[1..], sep)
  }

  /**
   * std::string::find of one character: the first position at or after
   * `from` that holds `d`, or None when there is none.
   */
  function Find(s: string, d: char, from: nat): (r: Option<nat>)
    ensures r.Some? ==> from <= r.value < |s| && s[r.value] == d
    ensures r.Some? ==> forall i :: from <= i < r.value ==> s[i] != d
    ensures r.None? ==> forall i :: from <= i < |s| ==> s[i] != d
    decreases |s| - from
  {
    if from >= |s| then None
    else if s[from] == d then Some(from)
    else Find(s, d, from + 1)
  }

  /** Merging the last two parts with the separator leaves the join unchanged. */
  lemma {:induction false} JoinMergeLast(ts: seq<string>, a: string, b: string, sep: string)
    ensures Join(ts + [a, b], sep) == Join(ts + [a + sep + b], sep)
    decreases |ts|
  {
    if |ts| > 0 {
      assert (ts + [a, b])[1..] == ts[1..] + [a, b];
      assert (ts + [a + sep + b])[1..] == ts[1..] + [a + sep + b];
      JoinMergeLast(ts[1..], a, b, sep);
    }
  }

  /**
   * What the split loop keeps: the tokens so far hold no delimiter, there is
   * one per delimiter before `cur`, and with the unread rest they join back
   * to the input.
   */
  predicate SplitInvariant(s: string, d: char, tokens: seq<string>, cur: nat)
  {
    cur <= |s| &&
    (forall t :: t in tokens ==> d !in t) &&
    |tokens| == multiset(s[..cur])[d] &&
    Join(tokens + [s[cur..]], [d]) == s
  }

  /**
   * Splits at every occurrence of the delimiter: one more token than there
   * are delimiters, no token holds the delimiter, and joining the tokens
   * with the delimiter gives the input back.
   */
  method Split(tokenString: string, delimiter: char) returns (tokens: seq<string>)
    ensures |tokens| == multiset(tokenString)[delimiter] + 1
    ensures forall t :: t in tokens ==> delimiter !in t
    ensures Join(tokens, [delimiter]) == tokenString
  {
    tokens := [];
    var currentPos: nat := 0;
    SplitStart(tokenString, delimiter);
    var pos := Find(tokenString, delimiter, currentPos);
    while pos.Some?
      invariant SplitInvariant(tokenString, delimiter, tokens, currentPos)
      invariant pos == Find(tokenString, delimiter, currentPos)
      decreases |tokenString| - currentPos
    {
      var p := pos.value;
      SplitAtDelimiter(tokenString, delimiter, tokens, currentPos, p);
      tokens := tokens + [tokenString[currentPos..p]];
      currentPos := p + 1;
      pos := Find(tokenString, delimiter, currentPos);
    }
    SplitDone(tokenString, delimiter, tokens, currentPos);
    tokens := tokens + [tokenString[currentPos..]];
  }

  /** Before the first delimiter is looked for, the whole input is unread. */
  lemma SplitStart(s: string, d: char)
    ensures SplitInvariant(s, d, [], 0)
  {
    assert [] + [s[0..]] == [s];
  }

  /** Cutting one token off at the next delimiter keeps the loop's facts. */
  lemma SplitAtDelimiter(s: string, d: char, tokens: seq<string>, cur: nat, p: nat)
    requires SplitInvariant(s, d, tokens, cur)
    requires Find(s, d, cur) == Some(p)
    ensures SplitInvariant(s, d, tokens + [s[cur..p]], p + 1)
  {
    var token := s[cur..p];
    assert d !in token;
    assert s[cur..] == token + [d] + s[p + 1..];
    assert s[..p + 1] == s[..cur] + token + [d];
    JoinMergeLast(tokens, token, s[p + 1..], [d]);
    assert (tokens + [token]) + [s[p + 1..]] == tokens + [token, s[p + 1..]];
  }

  /** With no delimiter left, the unread rest is the last token. */
  lemma SplitDone(s: string, d: char, tokens: seq<string>, cur: nat)
    requires SplitInvariant(s, d, tokens, cur)
    requires Find(s, d, cur).None?
    ensures |tokens + [s[cur..]]| == multiset(s)[d] + 1
    ensures forall t :: t in tokens + [s[cur..]] ==> d !in t
  {
    var last := s[cur..];
    assert d !in last;
    assert s == s[..cur] + last;
  }

  /** In a join of two or more parts, the first separator follows the first part. */
  lemma JoinAtFirstSeparator(ts: seq<string>, d: char)
    requires |ts| > 1
    ensures |Join(ts, [d])| > |ts[0]|
    ensures Join(ts, [d])[|ts[0]|] == d
    ensures Join(ts, [d])[..|ts[0]|] == ts[0]
    ensures Join(ts, [d])[|ts[0]| + 1..] == Join(ts[1..], [d])
    ensures d in Join(ts, [d])
  {
    var j := Join(ts, [d]);
    assert j == ts[0] + [d] + Join(ts[1..], [d]);
  }

  /** The first delimiter in a join sits right after the first part. */
  lemma FindFirstSeparator(ts: seq<string>, d: char)
    requires |ts| > 1 && d !in ts[0]
    ensures Find(Join(ts, [d]), d, 0) == Some(|ts[0]|)
  {
    JoinAtFirstSeparator(ts, d);
    var j := Join(ts, [d]);
    forall i | 0 <= i < |ts[0]| ensures j[i] != d {
      assert j[i] == j[..|ts[0]|][i];
    }
  }

  /**
   * Join is injective on non-empty token lists without the delimiter; with
   * the postconditions of Split this gives Split(Join(ts, [d]), d) == ts.
   */
  lemma {:induction false} JoinInjective(ts: seq<string>, us: seq<string>, d: char)
    requires |ts| > 0 && |us| > 0
    requires forall t :: t in ts ==> d !in t
    requires forall u :: u in us ==> d !in u
    requires Join(ts, [d]) == Join(us, [d])
    ensures ts == us
    decreases |ts|
  {
    if |ts| == 1 && |us| == 1 {
    } else if |ts| == 1 {
      JoinAtFirstSeparator(us, d);
    } else if |us| == 1 {
      JoinAtFirstSeparator(ts, d);
    } else {
      assert ts[0] in ts && us[0] in us;
      FindFirstSeparator(ts, d);
      FindFirstSeparator(us, d);
      JoinAtFirstSeparator(ts, d);
      JoinAtFirstSeparator(us, d);
      assert ts[0] == us[0];
      forall t | t in ts[1..] ensures d !in t { assert t in ts; }
      forall u | u in us[1..] ensures d !in u { assert u in us; }
      JoinInjective(ts[1..], us[1..], d);
      assert ts == [ts[0]] + ts[1..] && us == [us[0]] + us[1..];
    }
  }

  // ------------------------------------------------------------------
  // parseVVF
  // ------------------------------------------------------------------

  /** Characters the stream's float extraction takes as part of a number. */
  predicate IsNumberChar(c: char)
  {
    ('0' <= c <= '9') || c == '.' || c == '+' || c == '-' || c == 'e' || c == 'E'
  }

  /** White space that the float extraction skips before a number. */
  predicate IsSpace(c: char)
  {
    c == ' ' || c == '\t' || c == '\n' || c == '\r' || c == '\U{B}' || c == '\U{C}'
  }

  /** Characters the parser consumes without any effect. */
  predicate IsSeparator(c: char)
  {
    c == ',' || c == ' ' || c == '\t'
  }

  /** The number of white-space characters from `from` on, which the stream skips. */
  function SpaceSpan(s: string, from: nat): (n: nat)
    requires from <= |s|
    ensures from + n <= |s|
    decreases |s| - from
  {
    if from == |s| || !IsSpace(s[from]) then 0 else 1 + SpaceSpan(s, from + 1)
  }

  /** The length of the longest run of number characters from `from` on. */
  function NumberSpan(s: string, from: nat): (n: nat)
    requires from <= |s|
    ensures from + n <= |s|
    decreases |s| - from
  {
    if from == |s| || !IsNumberChar(s[from]) then 0 else 1 + NumberSpan(s, from + 1)
  }

  /** SpaceSpan covers white space only, and stops at the first other character. */
  lemma {:induction false} SpaceSpanMeaning(s: string, from: nat)
    requires from <= |s|
    ensures forall i :: from <= i < from + SpaceSpan(s, from) ==> IsSpace(s[i])
    ensures from + SpaceSpan(s, from) < |s| ==> !IsSpace(s[from + SpaceSpan(s, from)])
    decreases |s| - from
  {
    if from < |s| && IsSpace(s[from]) {
      SpaceSpanMeaning(s, from + 1);
    }
  }

  /** NumberSpan covers number characters only, and stops at the first other one. */
  lemma {:induction false} NumberSpanMeaning(s: string, from: nat)
    requires from <= |s|
    ensures forall i :: from <= i < from + NumberSpan(s, from) ==> IsNumberChar(s[i])
    ensures from + NumberSpan(s, from) < |s| ==> !IsNumberChar(s[from + NumberSpan(s, from)])
    decreases |s| - from
  {
    if from < |s| && IsNumberChar(s[from]) {
      NumberSpanMeaning(s, from + 1);
    }
  }

  /** The spans do not depend on the text in front of the position. */
  lemma {:induction false} SpansShift(a: string, b: string, from: nat)
    requires from <= |b|
    ensures SpaceSpan(a + b, |a| + from) == SpaceSpan(b, from)
    ensures NumberSpan(a + b, |a| + from) == NumberSpan(b, from)
    decreases |b| - from
  {
    if from < |b| {
      assert (a + b)[|a| + from] == b[from];
      SpansShift(a, b, from + 1);
    }
  }

  /** Converts the text of one number to its value, or rejects it. */
  type FloatReader = string -> Option<real>

  datatype VVFError =
    | NoError
    | DepthGreaterThanTwo
    | MoreCloseThanOpen
    | NumbersAtWrongDepth(found: char)
    | Unterminated

  /** The text parseVVF stores in its error argument; empty means success. */
  function Message(e: VVFError): (m: string)
    ensures m == "" <==> e == NoError
  {
    match e
    case NoError => ""
    case DepthGreaterThanTwo => "Array depth greater than 2"
    case MoreCloseThanOpen => "More close ] than open ["
    case NumbersAtWrongDepth(c) => "Numbers at depth other than 2. Char was '" + [c] + "'."
    case Unterminated => "Unterminated vector string."
  }

  /** The parser's loop state: bracket depth, the row being read, the rows done. */
  datatype Scan = Scan(depth: int, current: seq<real>, rows: seq<seq<real>>)

  /** What parseVVF returns: the rows and the error. */
  datatype Parsed = Parsed(rows: seq<seq<real>>, error: VVFError)

  /**
   * One pass through the loop body: it consumes characters and goes on,
   * returns early with an error, or leaves the stream failed.
   */
  datatype Move =
    | Advance(consumed: nat, next: Scan)
    | Stop(result: Parsed)
    | Fail(last: Scan)

  /** A number read from the stream and the count of characters it used. */
  datatype Extracted = Extracted(value: real, consumed: nat)

  /**
   * The stream's float extraction at `pos`: skip white space, then read the
   * longest run of number characters; None when that run is empty or not a
   * float.
   */
  function ExtractFloat(input: string, pos: nat, toFloat: FloatReader): (r: Option<Extracted>)
    requires pos <= |input|
    ensures r.Some? ==> 0 < r.value.consumed <= |input| - pos
  {
    var skip := SpaceSpan(input, pos);
    var len := NumberSpan(input, pos + skip);
    if len == 0 then None
    else
      match toFloat(input[pos + skip..pos + skip + len])
      case None => None
      case Some(v) => Some(Extracted(v, skip + len))
  }

  /**
   * What the extraction reads: after the skipped white space, a non-empty
   * run of number characters that the reader accepts; it fails exactly when
   * that run is empty or rejected.
   */
  lemma ExtractFloatReads(input: string, pos: nat, toFloat: FloatReader)
    requires pos <= |input|
    ensures var start := pos + SpaceSpan(input, pos);
      var len := NumberSpan(input, start);
      match ExtractFloat(input, pos, toFloat)
      case Some(e) =>
        len > 0 && e.consumed == start + len - pos &&
        toFloat(input[start..start + len]) == Some(e.value)
      case None =>
        len == 0 || toFloat(input[start..start + len]).None?
  {
  }

  /** The extraction does not depend on the text in front of the position. */
  lemma ExtractShift(a: string, b: string, pos: nat, toFloat: FloatReader)
    requires pos <= |b|
    ensures ExtractFloat(a + b, |a| + pos, toFloat) == ExtractFloat(b, pos, toFloat)
  {
    SpansShift(a, b, pos);
    var skip := SpaceSpan(b, pos);
    SpansShift(a, b, pos + skip);
    var len := NumberSpan(b, pos + skip);
    assert (a + b)[|a| + pos + skip..|a| + pos + skip + len] == b[pos + skip..pos + skip + len];
  }

  /** A number read from the stream holds no bracket. */
  lemma ExtractedHasNoBrackets(input: string, pos: nat, toFloat: FloatReader)
    requires pos <= |input| && ExtractFloat(input, pos, toFloat).Some?
    ensures var k := ExtractFloat(input, pos, toFloat).value.consumed;
      multiset(input[pos..pos + k])['['] == 0 && multiset(input[pos..pos + k])[']'] == 0
  {
    var skip := SpaceSpan(input, pos);
    SpaceSpanMeaning(input, pos);
    NumberSpanMeaning(input, pos + skip);
    var k := ExtractFloat(input, pos, toFloat).value.consumed;
    var read := input[pos..pos + k];
    forall i | 0 <= i < |read| ensures read[i] != '[' && read[i] != ']' {
      assert read[i] == input[pos + i];
    }
    assert '[' !in read;
    assert ']' !in read;
  }

  /** One pass through the loop body with the stream at `pos`. */
  function Step(input: string, pos: nat, st: Scan, toFloat: FloatReader): (m: Move)
    requires pos < |input|
    ensures m.Advance? ==> 0 < m.consumed <= |input| - pos
    ensures m.Stop? ==> m.result.rows == st.rows && m.result.error != NoError
    ensures m.Fail? ==> m.last == st && st.depth == 2
  {
    var c := input[pos];
    if c == '[' then
      if st.depth + 1 > 2 then Stop(Parsed(st.rows, DepthGreaterThanTwo))
      else Advance(1, Scan(st.depth + 1, [], st.rows))
    else if c == ']' then
      if st.depth - 1 < 0 then Stop(Parsed(st.rows, MoreCloseThanOpen))
      else
        var rows := if st.depth - 1 == 1 then st.rows + [st.current] else st.rows;
        Advance(1, Scan(st.depth - 1, st.current, rows))
    else if IsSeparator(c) then Advance(1, st)
    else if st.depth != 2 then
      Stop(Parsed(st.rows, NumbersAtWrongDepth(c)))
    else
      match ExtractFloat(input, pos, toFloat)
      case None => Fail(st)
      case Some(e) => Advance(e.consumed, Scan(2, st.current + [e.value], st.rows))
  }

  /** A pass that goes on changes the depth by the brackets it consumed. */
  lemma StepCounts(input: string, pos: nat, st: Scan, toFloat: FloatReader)
    requires pos < |input| && st.depth >= 0 && Step(input, pos, st, toFloat).Advance?
    ensures var m := Step(input, pos, st, toFloat);
      m.next.depth >= 0 &&
      m.next.depth + multiset(input[pos..pos + m.consumed])[']'] ==
        st.depth + multiset(input[pos..pos + m.consumed])['[']
  {
    var c := input[pos];
    if c == '[' || c == ']' || IsSeparator(c) {
      assert input[pos..pos + 1] == [c];
    } else {
      ExtractedHasNoBrackets(input, pos, toFloat);
    }
  }

  /** A pass does not depend on the text in front of the position. */
  lemma StepShift(a: string, b: string, pos: nat, st: Scan, toFloat: FloatReader)
    requires pos < |b|
    ensures Step(a + b, |a| + pos, st, toFloat) == Step(b, pos, st, toFloat)
  {
    assert (a + b)[|a| + pos] == b[pos];
    ExtractShift(a, b, pos, toFloat);
  }

  /** After the loop: unterminated unless the depth is back to zero. */
  function Finish(st: Scan): Parsed
  {
    Parsed(st.rows, if st.depth != 0 then Unterminated else NoError)
  }

  /** The loop, run from state `st` with the stream at `pos`. */
  function Run(input: string, pos: nat, st: Scan, toFloat: FloatReader): Parsed
    requires pos <= |input|
    decreases |input| - pos
  {
    if pos == |input| then Finish(st)
    else
      match Step(input, pos, st, toFloat)
      case Advance(k, next) => Run(input, pos + k, next, toFloat)
      case Stop(p) => p
      case Fail(last) => Finish(last)
  }

  /** parseVVF as a function of its input. */
  function Parse(input: string, toFloat: FloatReader): Parsed
  {
    Run(input, 0, Scan(0, [], []), toFloat)
  }

  /** The rest of a run does not depend on the text already read. */
  lemma {:induction false} RunShift(a: string, b: string, pos: nat, st: Scan, toFloat: FloatReader)
    requires pos <= |b|
    ensures Run(a + b, |a| + pos, st, toFloat) == Run(b, pos, st, toFloat)
    decreases |b| - pos
  {
    if pos < |b| {
      StepShift(a, b, pos, st, toFloat);
      var m := Step(b, pos, st, toFloat);
      if m.Advance? {
        RunShift(a, b, pos + m.consumed, m.next, toFloat);
      }
    }
  }

  /**
   * Reads the stream character by character, keeping a depth counter, the
   * row being read and the rows finished so far.
   */
  method ParseVVF(input: string, toFloat: FloatReader) returns (result: seq<seq<real>>, error: VVFError)
    ensures Parsed(result, error) == Parse(input, toFloat)
  {
    result := [];
    var pos := 0;
    var depth := 0;
    var currentVector: seq<real> := [];
    var streamGood := true;
    while streamGood && pos < |input|
      invariant 0 <= pos <= |input|
      invariant streamGood ==>
        Run(input, pos, Scan(depth, currentVector, result), toFloat) == Parse(input, toFloat)
      invariant !streamGood ==>
        Finish(Scan(depth, currentVector, result)) == Parse(input, toFloat)
      decreases |input| - pos, streamGood
    {
      var c := input[pos];
      if c == '[' {
        depth := depth + 1;
        if depth > 2 {
          error := DepthGreaterThanTwo;
          return;
        }
        pos := pos + 1;
        currentVector := [];
      } else if c == ']' {
        depth := depth - 1;
        if depth < 0 {
          error := MoreCloseThanOpen;
          return;
        }
        pos := pos + 1;
        if depth == 1 {
          result := result + [currentVector];
        }
      } else if IsSeparator(c) {
        pos := pos + 1;
      } else {
        if depth != 2 {
          error := NumbersAtWrongDepth(c);
          return;
        }
        var value := ExtractFloat(input, pos, toFloat);
        if value.Some? {
          currentVector := currentVector + [value.value.value];
          pos := pos + value.value.consumed;
        } else {
          streamGood := false;
        }
      }
    }
    error := if depth != 0 then Unterminated else NoError;
  }

  // What the loop does on each character, stated at a position of the input.

  /** A third nested '[' ends the parse at once with the rows read so far. */
  lemma OpenTooDeep(input: string, pos: nat, st: Scan, toFloat: FloatReader)
    requires pos < |input| && input[pos] == '[' && st.depth >= 2
    ensures Run(input, pos, st, toFloat) == Parsed(st.rows, DepthGreaterThanTwo)
  {
  }

  /** A '[' at depth 0 or 1 goes one level deeper and starts an empty row. */
  lemma OpenClearsRow(input: string, pos: nat, st: Scan, toFloat: FloatReader)
    requires pos < |input| && input[pos] == '[' && st.depth < 2
    ensures Run(input, pos, st, toFloat) == Run(input, pos + 1, Scan(st.depth + 1, [], st.rows), toFloat)
  {
  }

  /** A ']' at depth 0 ends the parse at once with the rows read so far. */
  lemma CloseTooMany(input: string, pos: nat, st: Scan, toFloat: FloatReader)
    requires pos < |input| && input[pos] == ']' && st.depth < 1
    ensures Run(input, pos, st, toFloat) == Parsed(st.rows, MoreCloseThanOpen)
  {
  }

  /**
   * A ']' that brings the depth back to 1 appends the current row; a ']'
   * that brings it to 0 appends nothing.
   */
  lemma ClosePushesRow(input: string, pos: nat, st: Scan, toFloat: FloatReader)
    requires pos < |input| && input[pos] == ']' && st.depth >= 1
    ensures Run(input, pos, st, toFloat) ==
            Run(input, pos + 1, Scan(st.depth - 1, st.current,
                                     if st.depth == 2 then st.rows + [st.current] else st.rows), toFloat)
  {
  }

  /** ',', ' ' and '\t' are consumed with no effect on the state. */
  lemma SeparatorSkipped(input: string, pos: nat, st: Scan, toFloat: FloatReader)
    requires pos < |input| && IsSeparator(input[pos])
    ensures Run(input, pos, st, toFloat) == Run(input, pos + 1, st, toFloat)
  {
  }

  /** Any other character outside depth 2 ends the parse with the rows read so far. */
  lemma NumberAtWrongDepth(input: string, pos: nat, st: Scan, toFloat: FloatReader)
    requires pos < |input| && input[pos] != '[' && input[pos] != ']' && !IsSeparator(input[pos])
    requires st.depth != 2
    ensures Run(input, pos, st, toFloat) == Parsed(st.rows, NumbersAtWrongDepth(input[pos]))
  {
  }

  /** At depth 2 a number the stream reads is appended to the current row. */
  lemma NumberAppended(input: string, pos: nat, st: Scan, toFloat: FloatReader)
    requires pos < |input| && input[pos] != '[' && input[pos] != ']' && !IsSeparator(input[pos])
    requires st.depth == 2 && ExtractFloat(input, pos, toFloat).Some?
    ensures var e := ExtractFloat(input, pos, toFloat).value;
      Run(input, pos, st, toFloat) ==
        Run(input, pos + e.consumed, Scan(2, st.current + [e.value], st.rows), toFloat)
  {
  }

  /**
   * At depth 2, text the stream cannot read as a number fails the stream and
   * ends the loop; the depth is not 0 then, so the result is unterminated.
   */
  lemma NumberUnreadable(input: string, pos: nat, st: Scan, toFloat: FloatReader)
    requires pos < |input| && input[pos] != '[' && input[pos] != ']' && !IsSeparator(input[pos])
    requires st.depth == 2 && ExtractFloat(input, pos, toFloat).None?
    ensures Run(input, pos, st, toFloat) == Parsed(st.rows, Unterminated)
  {
  }

  /** OpenClearsRow at the front of a string. */
  lemma OpenBracketClearsRow(rest: string, st: Scan, toFloat: FloatReader)
    requires 0 <= st.depth < 2
    ensures Run(['['] + rest, 0, st, toFloat) == Run(rest, 0, Scan(st.depth + 1, [], st.rows), toFloat)
  {
    OpenClearsRow(['['] + rest, 0, st, toFloat);
    RunShift(['['], rest, 0, Scan(st.depth + 1, [], st.rows), toFloat);
  }

  /** ClosePushesRow at the front of a string. */
  lemma CloseBracketPushesRow(rest: string, st: Scan, toFloat: FloatReader)
    requires 1 <= st.depth
    ensures Run([']'] + rest, 0, st, toFloat) ==
      Run(rest, 0, Scan(st.depth - 1, st.current,
                        if st.depth == 2 then st.rows + [st.current] else st.rows), toFloat)
  {
    ClosePushesRow([']'] + rest, 0, st, toFloat);
    RunShift([']'], rest, 0, Scan(st.depth - 1, st.current,
                                  if st.depth == 2 then st.rows + [st.current] else st.rows), toFloat);
  }

  /**
   * When the parse reports no error, the unread input holds as many ']' as
   * '['. At `pos` the depth is `st.depth`, so that many '[' are pending.
   */
  lemma {:induction false} NoErrorMeansBalanced(input: string, pos: nat, st: Scan, toFloat: FloatReader)
    requires pos <= |input| && 0 <= st.depth
    requires Run(input, pos, st, toFloat).error == NoError
    ensures multiset(input[pos..])['['] + st.depth == multiset(input[pos..])[']']
    decreases |input| - pos
  {
    if pos == |input| {
      assert input[pos..] == [];
    } else {
      var m := Step(input, pos, st, toFloat);
      if m.Advance? {
        StepCounts(input, pos, st, toFloat);
        NoErrorMeansBalanced(input, pos + m.consumed, m.next, toFloat);
        BracketsAdd(input, pos, m.consumed);
      }
    }
  }

  /** The brackets of the unread input are those of the next pass plus the rest. */
  lemma BracketsAdd(input: string, pos: nat, k: nat)
    requires pos + k <= |input|
    ensures multiset(input[pos..])['['] ==
            multiset(input[pos..pos + k])['['] + multiset(input[pos + k..])['[']
    ensures multiset(input[pos..])[']'] ==
            multiset(input[pos..pos + k])[']'] + multiset(input[pos + k..])[']']
  {
    assert input[pos..] == input[pos..pos + k] + input[pos + k..];
  }

  // The inverse: rendering rows of number texts and parsing them back.

  /** A non-empty run of number characters that the reader accepts. */
  predicate IsNumberToken(t: string, toFloat: FloatReader)
  {
    |t| > 0 && (forall i :: 0 <= i < |t| ==> IsNumberChar(t[i])) && toFloat(t).Some?
  }

  predicate AllNumberTokens(tokens: seq<string>, toFloat: FloatReader)
  {
    forall i :: 0 <= i < |tokens| ==> IsNumberToken(tokens[i], toFloat)
  }

  predicate AllNumberRows(rows: seq<seq<string>>, toFloat: FloatReader)
  {
    forall i :: 0 <= i < |rows| ==> AllNumberTokens(rows[i], toFloat)
  }

  function TokenValues(tokens: seq<string>, toFloat: FloatReader): (vs: seq<real>)
    requires AllNumberTokens(tokens, toFloat)
    ensures |vs| == |tokens|
  {
    if |tokens| == 0 then []
    else [toFloat(tokens[0]).value] + TokenValues(tokens[1..], toFloat)
  }

  function RowValues(rows: seq<seq<string>>, toFloat: FloatReader): (vss: seq<seq<real>>)
    requires AllNumberRows(rows, toFloat)
    ensures |vss| == |rows|
  {
    if |rows| == 0 then []
    else [TokenValues(rows[0], toFloat)] + RowValues(rows[1..], toFloat)
  }

  /** "[a, b, c]" */
  function RenderRow(tokens: seq<string>): string
  {
    "[" + Join(tokens, ", ") + "]"
  }

  function RenderRows(rows: seq<seq<string>>): (rs: seq<string>)
    ensures |rs| == |rows|
  {
    if |rows| == 0 then [] else [RenderRow(rows[0])] + RenderRows(rows[1..])
  }

  /** "[[a, b], [c, d, e]]", the syntax parseVVF documents. */
  function Render(rows: seq<seq<string>>): string
  {
    "[" + Join(RenderRows(rows), ", ") + "]"
  }

  /** The values of the last row, or `current` when there is none. */
  function LastRow(rows: seq<seq<string>>, current: seq<real>, toFloat: FloatReader): seq<real>
    requires AllNumberRows(rows, toFloat)
  {
    if |rows| == 0 then current else TokenValues(rows[|rows| - 1], toFloat)
  }

  /** The stream takes exactly the characters of a number token. */
  lemma {:induction false} NumberSpanOfToken(t: string, rest: string, from: nat)
    requires from <= |t|
    requires forall i :: 0 <= i < |t| ==> IsNumberChar(t[i])
    requires |rest| > 0 && !IsNumberChar(rest[0])
    ensures NumberSpan(t + rest, from) == |t| - from
    decreases |t| - from
  {
    if from < |t| {
      assert (t + rest)[from] == t[from];
      NumberSpanOfToken(t, rest, from + 1);
    } else {
      assert (t + rest)[from] == rest[0];
    }
  }

  /** A number token at depth 2 appends its value to the row. */
  lemma RunToken(t: string, rest: string, cur: seq<real>, rows: seq<seq<real>>, toFloat: FloatReader)
    requires IsNumberToken(t, toFloat)
    requires |rest| > 0 && !IsNumberChar(rest[0])
    ensures Run(t + rest, 0, Scan(2, cur, rows), toFloat) ==
            Run(rest, 0, Scan(2, cur + [toFloat(t).value], rows), toFloat)
  {
    var input := t + rest;
    assert input[0] == t[0];
    assert SpaceSpan(input, 0) == 0;
    NumberSpanOfToken(t, rest, 0);
    assert input[0..|t|] == t;
    RunShift(t, rest, 0, Scan(2, cur + [toFloat(t).value], rows), toFloat);
  }

  /** The ", " between two list elements is consumed with no effect. */
  lemma RunCommaSpace(tail: string, st: Scan, toFloat: FloatReader)
    ensures Run(", " + tail, 0, st, toFloat) == Run(tail, 0, st, toFloat)
  {
    var s := ", " + tail;
    SeparatorSkipped(s, 0, st, toFloat);
    SeparatorSkipped(s, 1, st, toFloat);
    RunShift(", ", tail, 0, st, toFloat);
  }

  /** The first token of a list of number tokens, and the rest of the list. */
  lemma TokensCons(ts: seq<string>, toFloat: FloatReader)
    requires |ts| > 0 && AllNumberTokens(ts, toFloat)
    ensures IsNumberToken(ts[0], toFloat) && AllNumberTokens(ts[1..], toFloat)
    ensures TokenValues(ts, toFloat) == [toFloat(ts[0]).value] + TokenValues(ts[1..], toFloat)
  {
    forall i | 0 <= i < |ts[1..]| ensures IsNumberToken(ts[1..][i], toFloat) {
      assert ts[1..][i] == ts[i + 1];
    }
  }

  /** A token followed by ", " appends its value to the row. */
  lemma RunTokenThenComma(t: string, tail: string, cur: seq<real>, rows: seq<seq<real>>,
                          toFloat: FloatReader)
    requires IsNumberToken(t, toFloat)
    ensures Run(t + (", " + tail), 0, Scan(2, cur, rows), toFloat) ==
            Run(tail, 0, Scan(2, cur + [toFloat(t).value], rows), toFloat)
  {
    RunToken(t, ", " + tail, cur, rows, toFloat);
    RunCommaSpace(tail, Scan(2, cur + [toFloat(t).value], rows), toFloat);
  }

  /** A last token appends its value to the row. */
  lemma RunLastToken(ts: seq<string>, rest: string, cur: seq<real>, rows: seq<seq<real>>,
                     toFloat: FloatReader)
    requires |ts| == 1 && AllNumberTokens(ts, toFloat)
    requires |rest| > 0 && rest[0] == ']'
    ensures Run(Join(ts, ", ") + rest, 0, Scan(2, cur, rows), toFloat) ==
            Run(rest, 0, Scan(2, cur + TokenValues(ts, toFloat), rows), toFloat)
  {
    TokensCons(ts, toFloat);
    assert Join(ts, ", ") + rest == ts[0] + rest;
    RunToken(ts[0], rest, cur, rows, toFloat);
    assert cur + TokenValues(ts, toFloat) == cur + [toFloat(ts[0]).value];
  }

  /** A first token followed by more: its value, then the values of the others. */
  lemma RunFirstToken(ts: seq<string>, rest: string, cur: seq<real>, rows: seq<seq<real>>,
                      toFloat: FloatReader)
    requires |ts| > 1 && AllNumberTokens(ts, toFloat)
    ensures AllNumberTokens(ts[1..], toFloat)
    ensures Run(Join(ts, ", ") + rest, 0, Scan(2, cur, rows), toFloat) ==
            Run(Join(ts[1..], ", ") + rest, 0, Scan(2, cur + [toFloat(ts[0]).value], rows), toFloat)
    ensures cur + TokenValues(ts, toFloat) ==
            cur + [toFloat(ts[0]).value] + TokenValues(ts[1..], toFloat)
  {
    TokensCons(ts, toFloat);
    var tail := Join(ts[1..], ", ") + rest;
    assert Join(ts, ", ") + rest == ts[0] + (", " + tail);
    RunTokenThenComma(ts[0], tail, cur, rows, toFloat);
  }

  /** The tokens of a row, up to its ']', append their values to the row. */
  lemma {:induction false} RunTokens(ts: seq<string>, rest: string, cur: seq<real>,
                                     rows: seq<seq<real>>, toFloat: FloatReader)
    requires AllNumberTokens(ts, toFloat)
    requires |rest| > 0 && rest[0] == ']'
    ensures Run(Join(ts, ", ") + rest, 0, Scan(2, cur, rows), toFloat) ==
            Run(rest, 0, Scan(2, cur + TokenValues(ts, toFloat), rows), toFloat)
    decreases |ts|
  {
    if |ts| == 0 {
      assert Join(ts, ", ") + rest == rest;
      assert cur + TokenValues(ts, toFloat) == cur;
    } else if |ts| == 1 {
      RunLastToken(ts, rest, cur, rows, toFloat);
    } else {
      RunFirstToken(ts, rest, cur, rows, toFloat);
      RunTokens(ts[1..], rest, cur + [toFloat(ts[0]).value], rows, toFloat);
    }
  }

  /** A rendered row at depth 1 appends its values as a new row. */
  lemma RunRow(ts: seq<string>, rest: string, cur: seq<real>, rows: seq<seq<real>>, toFloat: FloatReader)
    requires AllNumberTokens(ts, toFloat)
    ensures Run(RenderRow(ts) + rest, 0, Scan(1, cur, rows), toFloat) ==
            Run(rest, 0, Scan(1, TokenValues(ts, toFloat), rows + [TokenValues(ts, toFloat)]), toFloat)
  {
    var body := Join(ts, ", ");
    var vs := TokenValues(ts, toFloat);
    assert RenderRow(ts) + rest == ['['] + (body + ("]" + rest));
    OpenBracketClearsRow(body + ("]" + rest), Scan(1, cur, rows), toFloat);
    RunTokens(ts, "]" + rest, [], rows, toFloat);
    assert [] + vs == vs;
    assert "]" + rest == [']'] + rest;
    CloseBracketPushesRow(rest, Scan(2, vs, rows), toFloat);
  }

  /** The rows after the first keep the token property. */
  lemma TailRows(rs: seq<seq<string>>, toFloat: FloatReader)
    requires |rs| > 0 && AllNumberRows(rs, toFloat)
    ensures AllNumberTokens(rs[0], toFloat) && AllNumberRows(rs[1..], toFloat)
    ensures RowValues(rs, toFloat) == [TokenValues(rs[0], toFloat)] + RowValues(rs[1..], toFloat)
    ensures RenderRows(rs) == [RenderRow(rs[0])] + RenderRows(rs[1..])
  {
    forall i | 0 <= i < |rs[1..]| ensures AllNumberTokens(rs[1..][i], toFloat) {
      assert rs[1..][i] == rs[i + 1];
    }
  }

  /** A rendered row followed by ", " appends the row's values. */
  lemma RunRowThenComma(ts: seq<string>, tail: string, cur: seq<real>, rows: seq<seq<real>>,
                        toFloat: FloatReader)
    requires AllNumberTokens(ts, toFloat)
    ensures Run(RenderRow(ts) + (", " + tail), 0, Scan(1, cur, rows), toFloat) ==
            Run(tail, 0, Scan(1, TokenValues(ts, toFloat), rows + [TokenValues(ts, toFloat)]), toFloat)
  {
    var vs := TokenValues(ts, toFloat);
    RunRow(ts, ", " + tail, cur, rows, toFloat);
    RunCommaSpace(tail, Scan(1, vs, rows + [vs]), toFloat);
  }

  /** The rendered rows of a list, up to its end, append their values. */
  lemma {:induction false} RunRows(rs: seq<seq<string>>, rest: string, cur: seq<real>,
                                   acc: seq<seq<real>>, toFloat: FloatReader)
    requires AllNumberRows(rs, toFloat)
    ensures Run(Join(RenderRows(rs), ", ") + rest, 0, Scan(1, cur, acc), toFloat) ==
            Run(rest, 0, Scan(1, LastRow(rs, cur, toFloat), acc + RowValues(rs, toFloat)), toFloat)
    decreases |rs|
  {
    if |rs| == 0 {
      assert Join(RenderRows(rs), ", ") + rest == rest;
      assert acc + RowValues(rs, toFloat) == acc;
    } else {
      TailRows(rs, toFloat);
      var vs := TokenValues(rs[0], toFloat);
      var rendered := RenderRows(rs);
      assert rendered[0] == RenderRow(rs[0]) && rendered[1..] == RenderRows(rs[1..]);
      if |rs| == 1 {
        assert Join(rendered, ", ") == RenderRow(rs[0]);
        RunRow(rs[0], rest, cur, acc, toFloat);
        assert RowValues(rs[1..], toFloat) == [];
        assert acc + RowValues(rs, toFloat) == acc + [vs];
      } else {
        var tail := Join(RenderRows(rs[1..]), ", ") + rest;
        assert Join(rendered, ", ") + rest == RenderRow(rs[0]) + (", " + tail);
        RunRowThenComma(rs[0], tail, cur, acc, toFloat);
        RunRows(rs[1..], rest, vs, acc + [vs], toFloat);
        assert rs[1..][|rs[1..]| - 1] == rs[|rs| - 1];
        assert acc + [vs] + RowValues(rs[1..], toFloat) == acc + RowValues(rs, toFloat);
      }
    }
  }

  /** Parsing a rendered list of rows gives back their values and no error. */
  lemma ParseRender(rs: seq<seq<string>>, toFloat: FloatReader)
    requires AllNumberRows(rs, toFloat)
    ensures Parse(Render(rs), toFloat) == Parsed(RowValues(rs, toFloat), NoError)
  {
    var body := Join(RenderRows(rs), ", ");
    assert Render(rs) == ['['] + (body + "]");
    OpenBracketClearsRow(body + "]", Scan(0, [], []), toFloat);
    RunRows(rs, "]", [], [], toFloat);
    assert [] + RowValues(rs, toFloat) == RowValues(rs, toFloat);
    var last := LastRow(rs, [], toFloat);
    CloseBracketPushesRow([], Scan(1, last, RowValues(rs, toFloat)), toFloat);
    assert "]" == [']'] + [];
  }

  /** Without its closing ']', a rendered list is reported unterminated. */
  lemma ParseUnclosedRender(rs: seq<seq<string>>, toFloat: FloatReader)
    requires AllNumberRows(rs, toFloat)
    ensures Parse("[" + Join(RenderRows(rs), ", "), toFloat) ==
            Parsed(RowValues(rs, toFloat), Unterminated)
  {
    var body := Join(RenderRows(rs), ", ");
    assert "[" + body == ['['] + (body + []);
    OpenBracketClearsRow(body + [], Scan(0, [], []), toFloat);
    RunRows(rs, [], [], [], toFloat);
    assert [] + RowValues(rs, toFloat) == RowValues(rs, toFloat);
  }

  // ------------------------------------------------------------------
  // makeVectorPointsFromString
  // ------------------------------------------------------------------

  /** The point a two-number row stands for; other rows stand for none. */
  function RowPoint(row: seq<real>): seq<Point>
  {
    if |row| == 2 then [Point(row[0], row[1], 0.0)] else []
  }

  /** The points of the two-number rows, in row order. */
  function PairPoints(rows: seq<seq<real>>): (ps: seq<Point>)
    ensures |ps| <= |rows|
    ensures forall i :: 0 <= i < |ps| ==> ps[i].z == 0.0
  {
    if |rows| == 0 then []
    else PairPoints(rows[..|rows| - 1]) + RowPoint(rows[|rows| - 1])
  }

  /** PairPoints maps concatenation to concatenation. */
  lemma {:induction false} PairPointsConcat(a: seq<seq<real>>, b: seq<seq<real>>)
    ensures PairPoints(a + b) == PairPoints(a) + PairPoints(b)
    decreases |b|
  {
    if |b| == 0 {
      assert a + b == a;
    } else {
      assert (a + b)[..|a + b| - 1] == a + b[..|b| - 1];
      PairPointsConcat(a, b[..|b| - 1]);
    }
  }

  predicate AllPairs(rows: seq<seq<real>>)
  {
    forall i :: 0 <= i < |rows| ==> |rows[i]| == 2
  }

  /** When every row is a pair, there is one point per row, in row order. */
  lemma {:induction false} PairPointsOfPairs(rows: seq<seq<real>>)
    requires AllPairs(rows)
    ensures |PairPoints(rows)| == |rows|
    ensures forall i :: 0 <= i < |rows| ==> PairPoints(rows)[i] == Point(rows[i][0], rows[i][1], 0.0)
    decreases |rows|
  {
    if |rows| > 0 {
      PairPointsOfPairs(rows[..|rows| - 1]);
    }
  }

  /**
   * Appends one point per two-number row to `safetyZone` and returns the
   * result, which is also the new value of the out-parameter. Errors and a
   * short list are only logged; other rows are skipped.
   */
  method MakeVectorPointsFromString(safetyZoneStr: string, toFloat: FloatReader, safetyZone: seq<Point>)
    returns (zone: seq<Point>)
    ensures zone == safetyZone + PairPoints(Parse(safetyZoneStr, toFloat).rows)
  {
    var vvf, error := ParseVVF(safetyZoneStr, toFloat);
    zone := safetyZone;
    var i := 0;
    while i < |vvf|
      invariant 0 <= i <= |vvf|
      invariant zone == safetyZone + PairPoints(vvf[..i])
    {
      assert vvf[..i + 1][..i] == vvf[..i];
      if |vvf[i]| == 2 {
        zone := zone + [Point(vvf[i][0], vvf[i][1], 0.0)];
      }
      i := i + 1;
    }
    assert vvf[..|vvf|] == vvf;
  }

}
