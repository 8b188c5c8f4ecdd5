/**
 * The configuration the script derives from its settings before any record is
 * classified: the keyword groups, the example answers and the two repeat counts
 * (abstract_processing.py lines 28-30, 53-56, 68 and 71).
 */
module Settings {
  import opened Wrappers
  import opened Text

  /** The settings a classification needs. `groups` are the stripped `;`-separated keyword
      groups, `exampleAnswers` the raw `,`-separated example answers, one per group. */
  datatype Config = Config(groups: seq<string>, exampleAnswers: seq<string>, runTimes: int, maxRetries: int)

  /** The `ValueError` raised when the two counts differ. */
  datatype ConfigError = GroupCountMismatch(groups: nat, answers: nat)

  /** `[group.strip() for group in keywords_list.split(";")]`: one entry per `;`-separated
      piece, each piece stripped (see `Strip`); the pieces rejoin to the input (`JoinSplit`). */
  function KeywordGroups(keywordsList: string): (r: seq<string>)
    ensures |r| == Occurrences(keywordsList, ';') + 1
    ensures forall j :: 0 <= j < |r| ==> ';' !in r[j] && r[j] == Strip(Split(keywordsList, ';')[j])
  {
    var pieces := Split(keywordsList, ';');
    StripEachKeepsOut(pieces, ';');
    StripEach(pieces)
  }

  /** `[keyword.strip() for keyword in group.split(",")]`: the keywords of one group. */
  function GroupKeywords(group: string): (r: seq<string>)
    ensures |r| == Occurrences(group, ',') + 1
    ensures forall k :: 0 <= k < |r| ==> ',' !in r[k] && r[k] == Strip(Split(group, ',')[k])
  {
    var pieces := Split(group, ',');
    StripEachKeepsOut(pieces, ',');
    StripEach(pieces)
  }

  /** Strips every piece, keeping their order. */
  function StripEach(pieces: seq<string>): (r: seq<string>)
    ensures |r| == |pieces|
    ensures forall k :: 0 <= k < |r| ==> r[k] == Strip(pieces[k])
  {
    if pieces == [] then [] else [Strip(pieces[0])] + StripEach(pieces[1..])
  }

  /** A separator absent from every piece stays absent after stripping. */
  lemma {:induction false} StripEachKeepsOut(pieces: seq<string>, sep: char)
    requires forall k :: 0 <= k < |pieces| ==> sep !in pieces[k]
    ensures forall k :: 0 <= k < |pieces| ==> sep !in StripEach(pieces)[k]
  {
    if pieces != [] {
      StripKeepsOut(pieces[0], sep);
      StripEachKeepsOut(pieces[1..], sep);
    }
  }

  /** Lines 28 and 53-56: split both settings and refuse a count mismatch before anything
      else happens. */
  function ParseConfig(keywordsList: string, exampleAnswer: string, runTimes: int, maxRetries: int)
    : (r: Result<Config, ConfigError>)
    ensures r.Ok? <==> Occurrences(keywordsList, ';') == Occurrences(exampleAnswer, ',')
    ensures r.Ok? ==> r.value.groups == KeywordGroups(keywordsList)
                      && r.value.exampleAnswers == Split(exampleAnswer, ',')
                      && |r.value.groups| == |r.value.exampleAnswers| >= 1
                      && r.value.runTimes == runTimes && r.value.maxRetries == maxRetries
    ensures r.Err? ==> r.error.groups != r.error.answers
  {
    var groups := KeywordGroups(keywordsList);
    var answers := Split(exampleAnswer, ',');
    var g, a := |groups|, |answers|;
    assert g == Occurrences(keywordsList, ';') + 1;
    assert a == Occurrences(exampleAnswer, ',') + 1;
    if g != a then Err(GroupCountMismatch(g, a))
    else Ok(Config(groups, answers, runTimes, maxRetries))
  }

  /** Line 71: `example_answers[j].strip()`, the anchoring answer of group `j`. */
  function ExampleAnswer(cfg: Config, j: nat): (r: string)
    requires j < |cfg.exampleAnswers|
    ensures StrippedFrom(r, cfg.exampleAnswers[j])
  {
    StripSpec(cfg.exampleAnswers[j]);
    Strip(cfg.exampleAnswers[j])
  }
}
