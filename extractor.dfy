/**
 * The per-attempt scan of a streamed completion (abstract_processing.py lines 94-111):
 * every line of the body is looked at in order, and the scan stops at the first
 * content fragment whose first letter is 'Y' or 'N'.
 */
module ResponseExtractor {
  import opened Wrappers
  import opened Text

  /** What `json.loads` and the shape test on line 101 make of a data line's payload. */
  datatype Payload =
    | NotJson                         // json.loads raised JSONDecodeError (for instance "[DONE]")
    | NoDelta                         // no 'choices' key, or no 'delta' in choices[0]
    | Delta(content: Option<string>)  // choices[0]['delta'].get('content')

  /** One line of the response body: its decoded text, and what the text after the
      `data: ` prefix decodes to (only looked at when the prefix is there). */
  datatype Line = Line(raw: string, payload: Payload)

  /** The outcome of a scan, of an attempt and of a run: 'Y', 'N' or 'N/A'. */
  datatype Answer = Y | N | NA

  const DataPrefix: string := "data: "

  predicate IsDataLine(raw: string) {
    |raw| >= |DataPrefix| && raw[..|DataPrefix|] == DataPrefix
  }

  /** Lines 95-103: the content fragment a line hands to the scan, or `None` when the
      scan passes over the line (empty line, no `data: ` prefix, undecodable payload,
      no delta, absent or empty content). */
  function Content(line: Line): (r: Option<string>)
    ensures r.Some? <==> line.raw != [] && IsDataLine(line.raw) && line.payload.Delta?
                         && line.payload.content.Some? && line.payload.content.value != []
    ensures r.Some? ==> r.value == line.payload.content.value
  {
    if line.raw == [] || !IsDataLine(line.raw) then None
    else match line.payload
      case Delta(Some(c)) => if c != [] then Some(c) else None
      case _ => None
  }

  /** `first_valid_char in ['Y', 'N']`. */
  predicate Qualifies(c: Option<char>) {
    c == Some('Y') || c == Some('N')
  }

  /** Line 117: the letter itself when it is 'Y' or 'N', otherwise 'N/A'. */
  function Decide(c: Option<char>): (a: Answer)
    ensures a == Y <==> c == Some('Y')
    ensures a == N <==> c == Some('N')
    ensures a == NA <==> !Qualifies(c)
  {
    if c == Some('Y') then Y else if c == Some('N') then N else NA
  }

  /** What one line decides: the first letter of its content, if that letter is 'Y' or 'N'. */
  function LineAnswer(line: Line): Answer {
    match Content(line)
    case None => NA
    case Some(c) => Decide(FirstAlpha(c))
  }

  /** The answer of a whole stream: that of the first line that decides one. */
  function StreamAnswer(lines: seq<Line>): Answer {
    if lines == [] then NA
    else if LineAnswer(lines[0]) != NA then LineAnswer(lines[0])
    else StreamAnswer(lines[1..])
  }

  /** A stream answers 'N/A' exactly when no line decides, and otherwise answers what
      its first deciding line decides. */
  lemma {:induction false} StreamAnswerSpec(lines: seq<Line>)
    ensures StreamAnswer(lines) == NA <==> forall k :: 0 <= k < |lines| ==> LineAnswer(lines[k]) == NA
    ensures forall k :: 0 <= k < |lines| && LineAnswer(lines[k]) != NA
                        && (forall m :: 0 <= m < k ==> LineAnswer(lines[m]) == NA)
                        ==> StreamAnswer(lines) == LineAnswer(lines[k])
  {
    if lines != [] {
      StreamAnswerSpec(lines[1..]);
      assert forall k :: 1 <= k < |lines| ==> lines[k] == lines[1..][k - 1];
    }
  }

  /** Lines 94-109 as the script runs them: `carried` is the value `first_valid_char`
      holds when the attempt starts. The scan overwrites it for every non-empty content
      fragment and stops at the first one that qualifies. */
  method ScanStream(lines: seq<Line>, carried: Option<char>) returns (fvc: Option<char>)
    requires !Qualifies(carried)
    ensures Decide(fvc) == StreamAnswer(lines)
  {
    fvc := carried;
    for k := 0 to |lines|
      invariant !Qualifies(fvc)
      invariant forall m :: 0 <= m < k ==> LineAnswer(lines[m]) == NA
    {
      var line := lines[k];
      if line.raw != [] {
        if IsDataLine(line.raw) {
          match line.payload {
            case NotJson =>
              // JSONDecodeError: logged, and the scan goes on
            case NoDelta =>
            case Delta(content) =>
              if content.Some? && content.value != [] {
                fvc := FirstAlpha(content.value);
                if Qualifies(fvc) {
                  StreamAnswerSpec(lines);
                  break;
                }
              }
          }
        }
      }
    }
    StreamAnswerSpec(lines);
  }

  /** A line that decides nothing can be dropped from anywhere in the stream. */
  lemma {:induction false} SkippedLineTransparent(before: seq<Line>, line: Line, after: seq<Line>)
    requires LineAnswer(line) == NA
    ensures StreamAnswer(before + [line] + after) == StreamAnswer(before + after)
  {
    if before == [] {
      assert before + [line] + after == [line] + after;
      assert before + after == after;
      StreamAnswerCons(line, after);
    } else {
      SkippedLineTransparent(before[1..], line, after);
      assert before + [line] + after == [before[0]] + (before[1..] + [line] + after);
      assert before + after == [before[0]] + (before[1..] + after);
      StreamAnswerCons(before[0], before[1..] + [line] + after);
      StreamAnswerCons(before[0], before[1..] + after);
    }
  }

  /** One step of the scan: the first line decides, or the rest of the stream does. */
  lemma StreamAnswerCons(line: Line, rest: seq<Line>)
    ensures StreamAnswer([line] + rest)
            == if LineAnswer(line) != NA then LineAnswer(line) else StreamAnswer(rest)
  {
    assert ([line] + rest)[1..] == rest;
  }

  /** Every kind of line the scan passes over decides nothing. */
  lemma SkippedLines(raw: string, payload: Payload)
    requires raw == [] || !IsDataLine(raw) || payload == NotJson || payload == NoDelta
             || payload == Delta(None) || payload == Delta(Some([]))
    ensures LineAnswer(Line(raw, payload)) == NA
  {
  }

  /** Only the first letter of a fragment counts: text after a letter never changes what
      the line decides. */
  lemma {:induction false} FirstLetterDecides(c: string, rest: string)
    requires exists k :: 0 <= k < |c| && IsAlpha(c[k])
    ensures FirstAlpha(c + rest) == FirstAlpha(c)
  {
    if !IsAlpha(c[0]) {
      var k :| 0 <= k < |c| && IsAlpha(c[k]);
      assert k > 0 && IsAlpha(c[1..][k - 1]);
      FirstLetterDecides(c[1..], rest);
      assert (c + rest)[1..] == c[1..] + rest;
    }
  }

  /** Four sample fragments: "She" then "thinks Yes" decide nothing (their first letters
      are 'S' and 't', and the later "Yes" never counts), "Yes" decides 'Y' and
      "No, not really" decides 'N'. */
  lemma SampleFragments()
    ensures StreamAnswer([Line("data: 1", Delta(Some("She"))), Line("data: 2", Delta(Some("thinks Yes")))]) == NA
    ensures StreamAnswer([Line("data: 1", Delta(Some("Yes")))]) == Y
    ensures StreamAnswer([Line("data: 1", Delta(Some("No, not really")))]) == N
  {
    var she := Line("data: 1", Delta(Some("She")));
    var thinks := Line("data: 2", Delta(Some("thinks Yes")));
    assert IsDataLine("data: 1") && IsDataLine("data: 2");
    assert FirstAlpha("She") == Some('S');
    assert FirstAlpha("thinks Yes") == Some('t');
    assert FirstAlpha("Yes") == Some('Y');
    assert FirstAlpha("No, not really") == Some('N');
    assert LineAnswer(she) == NA && LineAnswer(thinks) == NA;
    assert [she, thinks][1..] == [thinks];
  }
}
