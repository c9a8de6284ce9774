/**
 * The client page: the state it keeps (the prompt being typed, the last
 * response, the selected mode, the loading flag), the generate action that
 * calls the route, and the way a response is cut into rendered blocks.
 */
module Page {
  import opened Wrappers
  import opened JsText
  import Route

  /** An entry of the page's mode list; `title` is its `label` (colours and icon are presentation only). */
  datatype ModeEntry = ModeEntry(id: string, title: string, description: string)

  const Modes: seq<ModeEntry> := [
    ModeEntry("normal", "Normal", "Polite but firm"),
    ModeEntry("moderate", "Moderate", "Direct and assertive"),
    ModeEntry("savage", "Savage", "Brutally honest")
  ]

  const SomethingWentWrong := "Sorry, something went wrong. Please try again."

  /** One of the ids in the mode list. */
  predicate IsModeId(id: string) {
    exists i | 0 <= i < |Modes| :: Modes[i].id == id
  }

  /** `entries.find(mode => mode.id === id)`: the first entry with that id, if any. */
  function FindMode(entries: seq<ModeEntry>, id: string): (r: Option<ModeEntry>)
    ensures r.Some? <==> exists i | 0 <= i < |entries| :: entries[i].id == id
    ensures r.Some? ==> r.value.id == id && r.value in entries
    ensures r.Some? ==> exists i | 0 <= i < |entries| ::
      (entries[i] == r.value && forall j | 0 <= j < i :: entries[j].id != id)
  {
    if entries == [] then None
    else if entries[0].id == id then Some(entries[0])
    else
      var r := FindMode(entries[1..], id);
      assert forall i | 1 <= i < |entries| :: entries[i] == entries[1..][i - 1];
      r
  }

  /** The page's mode ids are exactly the keys of the route's template table. */
  lemma ModeIdsAreTemplateKeys(id: string)
    ensures IsModeId(id) <==> Route.ToneOf(id).Some?
  {
    if Route.ToneOf(id).Some? {
      match Route.ToneOf(id).value
      case Normal => assert Modes[0].id == id;
      case Moderate => assert Modes[1].id == id;
      case Savage => assert Modes[2].id == id;
    }
  }

  /** The request the page sends for a mode id uses that mode's own template, never the fallback. */
  lemma ModeIdSelectsItsTemplate(prompt: string, id: string)
    requires IsModeId(id)
    ensures Route.ToneOf(id).Some?
    ensures Route.SelectedPrompt(Route.Request(Some(prompt), Some(id)))
      == Route.Template(Route.ToneOf(id).value, prompt)
  {
    ModeIdsAreTemplateKeys(id);
  }

  /** `!s.trim()`: nothing but white space. */
  predicate IsBlank(s: string) {
    Trim(s) == []
  }

  /** How the page's call to the route ended. */
  datatype FetchOutcome =
    | Received(data: Route.Body)  // the reply body, whatever its status
    | FetchThrew                  // the call, or decoding its JSON, threw

  /** The text `handleGenerate` shows for an outcome: the generic failure unless a success body arrived. */
  function ResponseAfter(outcome: FetchOutcome): (r: string)
    ensures outcome.FetchThrew? ==> r == SomethingWentWrong
    ensures outcome.Received? && outcome.data.Failed? ==> r == SomethingWentWrong
    ensures outcome.Received? && outcome.data.Generated? ==> r == outcome.data.geminiResponse
  {
    match outcome
    case FetchThrew => SomethingWentWrong
    case Received(data) =>
      if data.Failed? then SomethingWentWrong else data.geminiResponse
  }

  /**
   * Whatever the upstream does, a reply of the route leaves a non-empty
   * response, so the response panel (`{response && ...}`) is shown.
   */
  lemma RouteReplyIsShown(req: Route.Request, upstream: string -> Route.Upstream)
    ensures ResponseAfter(Received(Route.Handle(req, upstream).body)) != []
  {
  }

  class NoAsAService {
    var prompt: string
    var response: string
    var selectedMode: string
    var isLoading: bool

    /** The selected mode is always one of the listed ids. */
    predicate Valid()
      reads this
    {
      IsModeId(selectedMode)
    }

    /** The initial `useState` values. */
    constructor ()
      ensures Valid()
      ensures prompt == "" && response == "" && selectedMode == "normal" && !isLoading
    {
      prompt := "";
      response := "";
      selectedMode := "normal";
      isLoading := false;
      assert Modes[0].id == "normal";
    }

    /** The text area's `onChange`. */
    method EditPrompt(text: string)
      requires Valid()
      modifies this`prompt
      ensures Valid() && prompt == text
    {
      prompt := text;
    }

    /** A mode button's `onClick`: only ever selects an entry of the list. */
    method SelectMode(entry: ModeEntry)
      requires Valid() && entry in Modes
      modifies this`selectedMode
      ensures Valid() && selectedMode == entry.id
    {
      selectedMode := entry.id;
    }

    /** The generate button's `disabled` attribute. */
    predicate GenerateDisabled()
      reads this
    {
      IsBlank(prompt) || isLoading
    }

    /** `selectedModeData`: the lookup in the mode list always finds the selected entry. */
    function SelectedModeData(): (m: ModeEntry)
      reads this
      requires Valid()
      ensures m in Modes && m.id == selectedMode
    {
      FindMode(Modes, selectedMode).value
    }

    /** The body the page posts to the route. */
    function RequestBody(): (req: Route.Request)
      reads this
      requires Valid()
      ensures Route.SelectedPrompt(req) == Route.Template(Route.ToneOf(selectedMode).value, prompt)
      ensures req.prompt == Some(prompt) && req.mode == Some(selectedMode)
    {
      ModeIdSelectsItsTemplate(prompt, selectedMode);
      Route.Request(Some(prompt), Some(selectedMode))
    }

    /**
     * `handleGenerate`, given how the call to the route ends: nothing for a
     * blank prompt; otherwise loading on, the response set, loading off.
     */
    method HandleGenerate(outcome: FetchOutcome)
      requires Valid()
      modifies this`response, this`isLoading
      ensures Valid()
      ensures IsBlank(prompt) ==> response == old(response) && isLoading == old(isLoading)
      ensures !IsBlank(prompt) ==> response == ResponseAfter(outcome) && !isLoading
    {
      if IsBlank(prompt) {
        return;
      }
      isLoading := true;
      match outcome {
        case FetchThrew =>
          response := SomethingWentWrong;
        case Received(data) =>
          if data.Failed? {
            response := SomethingWentWrong;
          } else {
            response := data.geminiResponse;
          }
      }
      isLoading := false;
    }

    /** A click on the generate button, which does nothing while it is disabled. */
    method ClickGenerate(outcome: FetchOutcome)
      requires Valid()
      modifies this`response, this`isLoading
      ensures Valid()
      ensures old(GenerateDisabled()) ==> response == old(response) && isLoading == old(isLoading)
      ensures !old(GenerateDisabled()) ==> response == ResponseAfter(outcome) && !isLoading
    {
      if !GenerateDisabled() {
        HandleGenerate(outcome);
      }
    }

    /**
     * The blocks the response panel shows: one per non-blank line, in order.
     * An empty response shows none, as the panel is hidden then.
     */
    function Blocks(): (b: seq<Block>)
      reads this
      ensures b == ClassifyEach(NonBlank(Split(response, '\n')))
      ensures response == [] ==> b == []
      ensures |b| <= |Split(response, '\n')|
    {
      RenderLinesFollowNonBlank(Split(response, '\n'));
      NonBlankShorter(Split(response, '\n'));
      Render(response)
    }
  }

  // ---------------------------------------------------------------------------
  // Rendering a response
  // ---------------------------------------------------------------------------

  /** A rendered block: a numbered item with its badge, or a plain paragraph. */
  datatype Block = NumberedItem(badge: string, text: string) | Paragraph(text: string)

  /** The two capture groups of `/^(\d+\.\s*)(.*)/`. */
  datatype NumberedMatch = NumberedMatch(marker: string, rest: string)

  /** `line` starts with `n` ASCII digits and then a full stop. */
  predicate DigitsThenDot(line: string, n: nat) {
    1 <= n < |line| && All(line[..n], IsAsciiDigit) && line[n] == '.'
  }

  /** `marker` is `n` digits, a full stop and white space only: what the first group can capture. */
  predicate IsNumberMarker(marker: string, n: nat) {
    DigitsThenDot(marker, n) && All(marker[n + 1..], IsWhitespace)
  }

  /** The number of leading digits is the only count that can precede the full stop. */
  lemma DigitsThenDotUnique(line: string, n: nat)
    requires DigitsThenDot(line, n)
    ensures n == Span(line, 0, IsAsciiDigit)
  {
    var m := Span(line, 0, IsAsciiDigit);
    assert forall k | 0 <= k < n :: line[..n][k] == line[k];
  }

  /**
   * `line.match(/^(\d+\.\s*)(.*)/)`: digits, a full stop and the white space
   * after it form the marker; the text up to the first line terminator is the rest.
   */
  function MatchNumbered(line: string): (m: Option<NumberedMatch>)
    ensures m.Some? <==> exists n: nat :: DigitsThenDot(line, n)
  {
    var n := Span(line, 0, IsAsciiDigit);
    if n == 0 || n == |line| || line[n] != '.' then
      assert forall k: nat | DigitsThenDot(line, k) :: k == n by {
        forall k: nat | DigitsThenDot(line, k) ensures k == n {
          DigitsThenDotUnique(line, k);
        }
      }
      None
    else
      assert forall k | 0 <= k < n :: line[..n][k] == line[k];
      assert DigitsThenDot(line, n);
      var b := MarkerEnd(line, n);
      Some(NumberedMatch(line[..b], line[b..b + Span(line, b, MatchesDot)]))
  }

  /** Where `\d+\.\s*` ends, given `n` digits and a full stop: after the white space that follows. */
  function MarkerEnd(line: string, n: nat): (b: nat)
    requires n < |line|
    ensures n + 1 <= b <= |line|
  {
    n + 1 + Span(line, n + 1, IsWhitespace)
  }

  /**
   * The first group of a numbered line is digits, a full stop and white space,
   * and the two groups read together are a prefix of the line.
   */
  lemma NumberedMarker(line: string)
    requires MatchNumbered(line).Some?
    ensures var g := MatchNumbered(line).value;
      IsNumberMarker(g.marker, Span(line, 0, IsAsciiDigit))
      && |g.marker| + |g.rest| <= |line| && line[..|g.marker| + |g.rest|] == g.marker + g.rest
      && (|g.marker| < |line| ==> !IsWhitespace(line[|g.marker|]))
      && (|g.marker| + |g.rest| == |line| || IsLineTerminator(line[|g.marker| + |g.rest|]))
  {
    var n := Span(line, 0, IsAsciiDigit);
    var b := MarkerEnd(line, n);
    DigitsThenDotUnique(line, n);
    MarkerShape(line, n, b);
    SliceConcat(line, 0, b, b + Span(line, b, MatchesDot));
  }

  /** Digits, a full stop and then only white space up to `b`: the prefix up to `b` is a marker. */
  lemma MarkerShape(line: string, n: nat, b: nat)
    requires DigitsThenDot(line, n) && n + 1 <= b <= |line|
    requires forall k | n + 1 <= k < b :: IsWhitespace(line[k])
    ensures IsNumberMarker(line[..b], n)
  {
    var marker := line[..b];
    assert forall k | 0 <= k < n :: marker[..n][k] == line[..n][k];
    assert forall k | n + 1 <= k < b :: marker[n + 1..][k - n - 1] == line[k];
  }

  /** The second group holds no line terminator: `.` stops at the first one. */
  lemma NumberedRestOnOneLine(line: string)
    requires MatchNumbered(line).Some?
    ensures All(MatchNumbered(line).value.rest, MatchesDot)
  {
    var g := MatchNumbered(line).value;
    var b := MarkerEnd(line, Span(line, 0, IsAsciiDigit));
    var e := Span(line, b, MatchesDot);
    assert g.rest == line[b..b + e];
    forall k | 0 <= k < e ensures MatchesDot(g.rest[k]) {
      assert g.rest[k] == line[b + k];
    }
  }

  /** The second group does not start with white space: the `\s*` before it is greedy. */
  lemma NumberedRestStart(line: string)
    requires MatchNumbered(line).Some?
    ensures var g := MatchNumbered(line).value;
      g.rest != [] ==> !IsWhitespace(g.rest[0])
  {
    var g := MatchNumbered(line).value;
    var b := MarkerEnd(line, Span(line, 0, IsAsciiDigit));
    assert g.rest == line[b..b + Span(line, b, MatchesDot)];
  }

  /** Marker and rest are the whole line when the line holds no line terminator. */
  lemma NumberedRebuild(line: string)
    requires MatchNumbered(line).Some? && All(line, MatchesDot)
    ensures MatchNumbered(line).value.marker + MatchNumbered(line).value.rest == line
  {
    var g := MatchNumbered(line).value;
    var b := MarkerEnd(line, Span(line, 0, IsAsciiDigit));
    var e := Span(line, b, MatchesDot);
    assert g.marker == line[..b] && g.rest == line[b..b + e];
    assert b + e == |line|;
    assert line == line[..b] + line[b..];
  }

  /** `s.replace(c, '')` with a one-character pattern: deletes the first occurrence only. */
  function RemoveFirst(s: string, c: char): string {
    if s == [] then []
    else if s[0] == c then s[1..]
    else [s[0]] + RemoveFirst(s[1..], c)
  }

  /** Deleting the first `c` from `p + [c] + q`, where `p` holds none, leaves `p + q`. */
  lemma {:induction false} RemoveFirstAfter(p: string, c: char, q: string)
    requires c !in p
    ensures RemoveFirst(p + [c] + q, c) == p + q
  {
    if p == [] {
      assert p + [c] + q == [c] + q;
    } else {
      assert p == [p[0]] + p[1..];
      assert p + [c] + q == [p[0]] + (p[1..] + [c] + q);
      RemoveFirstAfter(p[1..], c, q);
    }
  }

  /** The block a non-blank line becomes: a numbered item when the pattern matches, else the line itself. */
  function Classify(line: string): Block {
    match MatchNumbered(line)
    case Some(g) => NumberedItem(RemoveFirst(g.marker, '.'), g.rest)
    case None => Paragraph(line)
  }

  /** The block a line becomes, or `None` (React's `null`) for a blank line. */
  function RenderLine(line: string): Option<Block> {
    if IsBlank(line) then None else Some(Classify(line))
  }

  /** `lines.map(...)` with the per-line rendering. */
  function RenderEach(lines: seq<string>): seq<Option<Block>> {
    if lines == [] then [] else [RenderLine(lines[0])] + RenderEach(lines[1..])
  }

  /** `.filter(Boolean)` over the rendered lines: drops the `null`s, keeps the order. */
  function Present(xs: seq<Option<Block>>): seq<Block> {
    if xs == [] then []
    else (if xs[0].Some? then [xs[0].value] else []) + Present(xs[1..])
  }

  /** `response.split('\n').map(...).filter(Boolean)`. */
  function Render(response: string): seq<Block> {
    Present(RenderEach(Split(response, '\n')))
  }

  /** The lines that are not blank, in order. */
  function NonBlank(lines: seq<string>): seq<string> {
    if lines == [] then []
    else (if IsBlank(lines[0]) then [] else [lines[0]]) + NonBlank(lines[1..])
  }

  lemma {:induction false} NonBlankShorter(lines: seq<string>)
    ensures |NonBlank(lines)| <= |lines|
    ensures lines == [""] ==> NonBlank(lines) == []
  {
    if lines != [] {
      NonBlankShorter(lines[1..]);
    }
  }

  /** The blocks of lines already known to be non-blank. */
  function ClassifyEach(lines: seq<string>): (r: seq<Block>)
    ensures |r| == |lines|
    ensures forall i | 0 <= i < |lines| :: r[i] == Classify(lines[i])
  {
    if lines == [] then [] else [Classify(lines[0])] + ClassifyEach(lines[1..])
  }

  /** Dropping the `null`s after the map is the same as classifying the non-blank lines. */
  lemma {:induction false} RenderLinesFollowNonBlank(lines: seq<string>)
    ensures Present(RenderEach(lines)) == ClassifyEach(NonBlank(lines))
  {
    if lines != [] {
      var tail := lines[1..];
      RenderLinesFollowNonBlank(tail);
      assert RenderEach(lines)[1..] == RenderEach(tail);
      if IsBlank(lines[0]) {
        assert NonBlank(lines) == NonBlank(tail);
      } else {
        assert NonBlank(lines) == [lines[0]] + NonBlank(tail);
        assert NonBlank(lines)[1..] == NonBlank(tail);
      }
    }
  }

  /** The panel shows one block per non-blank line of `response.split('\n')`, in order. */
  lemma RenderFollowsNonBlankLines(response: string)
    ensures var lines := NonBlank(Split(response, '\n'));
      |Render(response)| == |lines|
      && forall i | 0 <= i < |lines| :: Render(response)[i] == Classify(lines[i])
  {
    RenderLinesFollowNonBlank(Split(response, '\n'));
  }

  /** `marker.replace('.', '')` drops the full stop after the digits, the marker's only change. */
  lemma MarkerWithoutDot(marker: string, n: nat)
    requires IsNumberMarker(marker, n)
    ensures RemoveFirst(marker, '.') == marker[..n] + marker[n + 1..]
  {
    assert '.' !in marker[..n] by {
      assert forall k | 0 <= k < n :: IsAsciiDigit(marker[..n][k]);
    }
    assert marker == marker[..n] + ['.'] + marker[n + 1..];
    RemoveFirstAfter(marker[..n], '.', marker[n + 1..]);
  }

  /** A numbered line's badge is its marker without the full stop: the digits and the white space after. */
  lemma NumberedBadge(line: string)
    requires MatchNumbered(line).Some?
    ensures var g := MatchNumbered(line).value;
      var n := Span(line, 0, IsAsciiDigit);
      n < |g.marker| && Classify(line) == NumberedItem(g.marker[..n] + g.marker[n + 1..], g.rest)
  {
    NumberedMarker(line);
    var g := MatchNumbered(line).value;
    MarkerWithoutDot(g.marker, Span(line, 0, IsAsciiDigit));
  }

  /** A line that does not start with a digit, for instance an indented one, is a plain paragraph. */
  lemma UnnumberedLineIsParagraph(line: string)
    requires line == [] || !IsAsciiDigit(line[0])
    ensures Classify(line) == Paragraph(line)
  {
    forall n: nat | 1 <= n < |line| ensures !DigitsThenDot(line, n) {
      assert line[..n][0] == line[0];
    }
  }
}
