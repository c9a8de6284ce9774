/**
 * The POST handler of the completion route: it picks a prompt template by
 * tone, sends the prompt upstream, strips markdown emphasis from the text that
 * comes back and assembles the JSON reply and its HTTP status.
 *
 * The upstream call itself (fetch, API key, JSON decoding) is a parameter of
 * `Handle`: a function from the prompt sent to what came back.
 */
module Route {
  import opened Wrappers
  import opened JsText

  /** The three rhetorical styles a refusal can take. */
  datatype Tone = Normal | Moderate | Savage

  /** The fields the handler reads from the request body; `None` is a key absent from the JSON. */
  datatype Request = Request(prompt: Option<string>, mode: Option<string>)

  /** What the upstream completion call gave the handler. */
  datatype Upstream =
    | Answered(status: int, text: Option<string>)  // an HTTP response; `text` is candidates[0].content.parts[0].text
    | CallThrew                                   // the call, or decoding its JSON, threw

  /** The JSON body of the handler's reply. */
  datatype Body =
    | Generated(geminiResponse: string, mode: string, originalPrompt: Option<string>)
    | Failed(error: string)

  datatype Reply = Reply(status: int, body: Body)

  const DefaultMode := "normal"
  const Apology := "Sorry, I couldn't generate a response right now."
  const FetchFailed := "Failed to fetch from Gemini API"
  const ProcessingFailed := "An error occurred while processing your request"

  /** The delimiters of the two emphasis patterns, bold `\*\*(.*?)\*\*` and italic `\*(.*?)\*`. */
  const Bold := "**"
  const Italic := "*"

  /** `response.ok` of the Fetch API. */
  predicate IsOk(status: int) {
    200 <= status <= 299
  }

  // ---------------------------------------------------------------------------
  // Tone selection and prompt templates
  // ---------------------------------------------------------------------------

  /** The destructuring default `mode = "normal"`: applies only when the key is absent. */
  function ResolveMode(mode: Option<string>): string {
    mode.GetOr(DefaultMode)
  }

  /** The key of a tone in the template table. */
  function KeyOf(t: Tone): string {
    match t
    case Normal => "normal"
    case Moderate => "moderate"
    case Savage => "savage"
  }

  /** Lookup in the three-entry template table; `None` for any other key. */
  function ToneOf(key: string): (t: Option<Tone>)
    ensures t.Some? ==> KeyOf(t.value) == key
    ensures forall u: Tone :: key == KeyOf(u) ==> t == Some(u)
  {
    if key == "normal" then Some(Normal)
    else if key == "moderate" then Some(Moderate)
    else if key == "savage" then Some(Savage)
    else None
  }

  /** A template literal's rendering of `${prompt}`: an absent prompt reads "undefined". */
  function PromptText(prompt: Option<string>): string {
    prompt.GetOr("undefined")
  }

  /** The word that sets a template's tone. */
  function Adverb(t: Tone): string {
    match t
    case Normal => "politely"
    case Moderate => "assertively"
    case Savage => "brutally"
  }

  /** The text of a template before the quoted prompt. */
  function Opening(t: Tone): string {
    "You are helping someone " + Adverb(t) + " decline this request/situation: "
  }

  /** The text of a template after the quoted prompt. */
  function Closing(t: Tone): string {
    ". Generate a " + Instructions(t)
  }

  /** What each template asks the model for, after "Generate a ". */
  function Instructions(t: Tone): string {
    match t
    case Normal =>
      "professional, polite way they can say \"no\" to this situation. \n\n"
      + "    Give them one clear response they can use to decline professionally"
      + " while maintaining good relationships. Make it respectful but firm."
    case Moderate =>
      "direct, confident way they can say \"no\" to this situation.\n\n"
      + "    Give them one clear response they can use to decline firmly"
      + " without being apologetic. Make it assertive and clear about their boundaries."
    case Savage =>
      "witty, savage way they can say \"no\" to this situation.\n\n"
      + "    Give them one memorable response they can use to decline in a funny,"
      + " brutally honest way. Make it clever and unforgettable while still being somewhat professional."
  }

  /** `before` + `"${value}"` + `after`: a value interpolated between double quotes. */
  function Quoted(before: string, value: string, after: string): string {
    before + "\"" + value + "\"" + after
  }

  /** The template of tone `t` with `prompt` interpolated between double quotes. */
  function Template(t: Tone, prompt: string): string {
    Quoted(Opening(t), prompt, Closing(t))
  }

  /** `modePrompts[mode] || modePrompts.normal`, after the mode default: the tone whose template is used. */
  function SelectedTone(req: Request): Tone {
    ToneOf(ResolveMode(req.mode)).GetOr(Normal)
  }

  /** The prompt the handler sends upstream. */
  function SelectedPrompt(req: Request): string {
    Template(SelectedTone(req), PromptText(req.prompt))
  }

  /** The quoted value sits right after `before`, between its two quotes. */
  lemma QuotedBetween(o: string, p: string, c: string)
    ensures |o| + |p| + 2 <= |Quoted(o, p, c)|
    ensures Quoted(o, p, c)[|o|..|o| + |p| + 2] == "\"" + p + "\""
  {
    assert Quoted(o, p, c) == o + ("\"" + p + "\"") + c;
  }

  /** Every template quotes the prompt verbatim between double quotes, right after the opening. */
  lemma TemplateQuotesPrompt(t: Tone, prompt: string)
    ensures var i := |Opening(t)|;
      i + |prompt| + 2 <= |Template(t, prompt)|
      && Template(t, prompt)[i..i + |prompt| + 2] == "\"" + prompt + "\""
  {
    QuotedBetween(Opening(t), prompt, Closing(t));
  }

  /** The first letter of a tone's adverb. */
  function Initial(t: Tone): char {
    match t
    case Normal => 'p'
    case Moderate => 'a'
    case Savage => 'b'
  }

  /** The three adverbs start with three different letters. */
  lemma InitialsDiffer(t1: Tone, t2: Tone)
    requires t1 != t2
    ensures Initial(t1) != Initial(t2)
  {
  }

  /** The openings first differ at index 24, the adverb's initial. */
  lemma AdverbInitial(t: Tone)
    ensures |Opening(t)| > 24 && Opening(t)[24] == Initial(t)
  {
  }

  /** A quoted text starts with the text before the quote. */
  lemma QuotedPrefix(o: string, p: string, c: string)
    ensures o <= Quoted(o, p, c)
  {
    assert Quoted(o, p, c) == o + ("\"" + p + "\"" + c);
  }

  /** Every template starts with its opening, whatever the prompt. */
  lemma TemplateStartsWithOpening(t: Tone, prompt: string)
    ensures Opening(t) <= Template(t, prompt)
  {
    QuotedPrefix(Opening(t), prompt, Closing(t));
  }

  /** Texts that start with openings differing at index 24 differ. */
  lemma StartsDiffer(o1: string, o2: string, w1: string, w2: string)
    requires 24 < |o1| && 24 < |o2| && o1[24] != o2[24] && o1 <= w1 && o2 <= w2
    ensures w1 != w2
  {
    assert w1[24] == o1[24] && w2[24] == o2[24];
  }

  /** For any one prompt the three templates differ (they already do at the adverb's initial). */
  lemma TemplatesDistinct(t1: Tone, t2: Tone, prompt: string)
    requires t1 != t2
    ensures Template(t1, prompt) != Template(t2, prompt)
  {
    OpeningsDiffer(t1, t2);
    TemplateStartsWithOpening(t1, prompt);
    TemplateStartsWithOpening(t2, prompt);
    StartsDiffer(Opening(t1), Opening(t2), Template(t1, prompt), Template(t2, prompt));
  }

  /** Two different tones have different openings, already at index 24. */
  lemma OpeningsDiffer(t1: Tone, t2: Tone)
    requires t1 != t2
    ensures 24 < |Opening(t1)| && 24 < |Opening(t2)| && Opening(t1)[24] != Opening(t2)[24]
  {
    AdverbInitial(t1);
    AdverbInitial(t2);
    InitialsDiffer(t1, t2);
  }

  /** With the same text around it, the quoted value is determined. */
  lemma QuotedDeterminesValue(o: string, p1: string, p2: string, c: string)
    requires Quoted(o, p1, c) == Quoted(o, p2, c)
    ensures p1 == p2
  {
    QuotedBetween(o, p1, c);
    QuotedBetween(o, p2, c);
    assert |p1| == |p2|;
    assert p1 == ("\"" + p1 + "\"")[1..|p1| + 1];
    assert p2 == ("\"" + p2 + "\"")[1..|p2| + 1];
  }

  /** The prompt can be read back from a template: different prompts give different texts. */
  lemma TemplateDeterminesPrompt(t: Tone, p1: string, p2: string)
    requires Template(t, p1) == Template(t, p2)
    ensures p1 == p2
  {
    QuotedDeterminesValue(Opening(t), p1, p2, Closing(t));
  }

  /**
   * Which template the handler sends: the mode's own for the three known keys,
   * the normal one for any other key and for an absent mode.
   */
  lemma ToneSelection(req: Request)
    ensures req.mode.None? ==> SelectedTone(req) == Normal
    ensures forall t: Tone :: req.mode == Some(KeyOf(t)) ==> SelectedTone(req) == t
    ensures req.mode.Some? && ToneOf(req.mode.value).None? ==> SelectedTone(req) == Normal
  {
  }

  // ---------------------------------------------------------------------------
  // Emphasis stripping: `s.replace(/D(.*?)D/g, '$1')` for D = `\*\*`, then `\*`
  // ---------------------------------------------------------------------------

  /** An emphasis delimiter: one or more asterisks. */
  predicate IsDelimiter(d: string) {
    d != [] && All(d, c => c == '*')
  }

  /** `d` occurs in `s` at index `i`. */
  predicate OccursAt(s: string, i: nat, d: string) {
    i + |d| <= |s| && s[i..i + |d|] == d
  }

  /** No line terminator lies in `s[i..j]`, so `.*` can span it. */
  predicate OnOneLine(s: string, i: nat, j: nat)
    requires i <= j <= |s|
  {
    forall k | i <= k < j :: !IsLineTerminator(s[k])
  }

  /**
   * Where the lazy `(.*?)` followed by `d` closes a match whose content starts
   * at `j`: the first index `k >= j` at which `d` occurs with no line
   * terminator in `s[j..k]`, or `None` when a line terminator or the end of
   * `s` comes first.
   */
  function FindClose(s: string, j: nat, d: string): (k: Option<nat>)
    requires j <= |s|
    decreases |s| - j
    ensures k.Some? ==>
      j <= k.value && OccursAt(s, k.value, d) && OnOneLine(s, j, k.value)
      && forall m | j <= m < k.value :: !OccursAt(s, m, d)
    ensures k.None? ==> forall m | j <= m <= |s| && OnOneLine(s, j, m) :: !OccursAt(s, m, d)
  {
    if OccursAt(s, j, d) then Some(j)
    else if j == |s| || IsLineTerminator(s[j]) then None
    else FindClose(s, j + 1, d)
  }

  /**
   * One global replace pass for delimiter `d`: at each position, a match is
   * `d`, the shortest content on one line, and `d` again; a match is replaced
   * by its content and the scan resumes after it, otherwise one character is
   * kept and the scan moves on by one.
   */
  function StripEmphasis(s: string, d: string): string
    requires d != []
    decreases |s|
  {
    if s == [] then []
    else if OccursAt(s, 0, d) && FindClose(s, |d|, d).Some? then
      var k := FindClose(s, |d|, d).value;
      s[|d|..k] + StripEmphasis(s[k + |d|..], d)
    else [s[0]] + StripEmphasis(s[1..], d)
  }

  /** The two replace passes, bold first. */
  function Unemphasize(text: string): string {
    StripEmphasis(StripEmphasis(text, Bold), Italic)
  }

  /** The full cleanup: both passes, then `trim()`. */
  function Clean(text: string): string {
    Trim(Unemphasize(text))
  }

  /** `cleanedResponse || apology`: the apology when the text is absent or cleans to "". */
  function GeminiResponse(text: Option<string>): (r: string)
    ensures r != []
    ensures r == Apology || (!IsWhitespace(r[0]) && !IsWhitespace(r[|r| - 1]))
    ensures text.None? ==> r == Apology
    ensures text.Some? && Clean(text.value) != [] ==> r == Clean(text.value)
    ensures text.Some? && Clean(text.value) == [] ==> r == Apology
  {
    match text
    case None => Apology
    case Some(t) =>
      var c := Clean(t);
      if c == [] then
          Apology
      else c
  }

  // ---------------------------------------------------------------------------
  // What the cleanup does to a text
  // ---------------------------------------------------------------------------

  /** `t` arises from `s` by deleting some of its '*' characters and nothing else. */
  predicate DeletesOnlyStars(s: string, t: string)
    decreases |s|
  {
    if s == [] then t == []
    else
      (s[0] == '*' && DeletesOnlyStars(s[1..], t))
      || (t != [] && t[0] == s[0] && DeletesOnlyStars(s[1..], t[1..]))
  }

  /** `t` is a subsequence of `s`: `s` with some characters deleted. */
  predicate IsSubsequence(t: string, s: string)
    decreases |s|
  {
    if s == [] then t == []
    else
      IsSubsequence(t, s[1..])
      || (t != [] && t[0] == s[0] && IsSubsequence(t[1..], s[1..]))
  }

  /** `s` without its asterisks. */
  function Unstarred(s: string): string {
    if s == [] then []
    else (if s[0] == '*' then [] else [s[0]]) + Unstarred(s[1..])
  }

  /** A subsequence keeps at most as many non-asterisk characters. */
  lemma {:induction false} SubsequenceUnstarredShorter(t: string, s: string)
    requires IsSubsequence(t, s)
    ensures |Unstarred(t)| <= |Unstarred(s)|
  {
    if s == [] {
    } else if IsSubsequence(t, s[1..]) {
      SubsequenceUnstarredShorter(t, s[1..]);
    } else {
      SubsequenceUnstarredShorter(t[1..], s[1..]);
    }
  }

  /**
   * Deleting only asterisks is exactly: being a subsequence that keeps every
   * other character. Such a deletion never lengthens the text.
   */
  lemma {:induction false} DeletesOnlyStarsMeaning(s: string, t: string)
    ensures DeletesOnlyStars(s, t) <==> IsSubsequence(t, s) && Unstarred(t) == Unstarred(s)
    ensures DeletesOnlyStars(s, t) ==> |t| <= |s|
  {
    if s != [] {
      DeletesOnlyStarsMeaning(s[1..], t);
      assert Unstarred(s) == (if s[0] == '*' then [] else [s[0]]) + Unstarred(s[1..]);
      if t != [] {
        DeletesOnlyStarsMeaning(s[1..], t[1..]);
        assert Unstarred(t) == (if t[0] == '*' then [] else [t[0]]) + Unstarred(t[1..]);
      }
      if IsSubsequence(t, s) && Unstarred(t) == Unstarred(s) {
        if IsSubsequence(t, s[1..]) && s[0] != '*' {
          SubsequenceUnstarredShorter(t, s[1..]);
        } else if t != [] && t[0] == s[0] && IsSubsequence(t[1..], s[1..]) {
          var kept := if s[0] == '*' then [] else [s[0]];
          assert Unstarred(t[1..]) == (kept + Unstarred(t[1..]))[|kept|..];
          assert Unstarred(s[1..]) == (kept + Unstarred(s[1..]))[|kept|..];
        }
      }
    }
  }

  lemma {:induction false} DeletesOnlyStarsRefl(s: string)
    ensures DeletesOnlyStars(s, s)
  {
    if s != [] {
      DeletesOnlyStarsRefl(s[1..]);
    }
  }

  lemma {:induction false} DeletesAllStars(s: string)
    requires All(s, c => c == '*')
    ensures DeletesOnlyStars(s, [])
  {
    if s != [] {
      DeletesAllStars(s[1..]);
    }
  }

  /** Deletions in two texts combine into one in their concatenation. */
  lemma {:induction false} DeletesOnlyStarsConcat(a: string, b: string, c: string, e: string)
    requires DeletesOnlyStars(a, b) && DeletesOnlyStars(c, e)
    ensures DeletesOnlyStars(a + c, b + e)
  {
    if a == [] {
      assert a + c == c && b + e == e;
    } else if a[0] == '*' && DeletesOnlyStars(a[1..], b) {
      DeletesOnlyStarsConcat(a[1..], b, c, e);
      assert (a + c)[1..] == a[1..] + c;
    } else {
      DeletesOnlyStarsConcat(a[1..], b[1..], c, e);
      assert (a + c)[1..] == a[1..] + c;
      assert (b + e)[1..] == b[1..] + e;
    }
  }

  /** Two rounds of deleting asterisks are one round. */
  lemma {:induction false} DeletesOnlyStarsTrans(a: string, b: string, c: string)
    requires DeletesOnlyStars(a, b) && DeletesOnlyStars(b, c)
    ensures DeletesOnlyStars(a, c)
  {
    if a == [] {
    } else if a[0] == '*' && DeletesOnlyStars(a[1..], b) {
      DeletesOnlyStarsTrans(a[1..], b, c);
    } else if b[0] == '*' && DeletesOnlyStars(b[1..], c) {
      DeletesOnlyStarsTrans(a[1..], b[1..], c);
    } else {
      DeletesOnlyStarsTrans(a[1..], b[1..], c[1..]);
    }
  }

  /** A match of a pass: the text is delimiter, content, delimiter and the rest, and the pass keeps the content. */
  lemma StripMatch(s: string, d: string)
    requires d != [] && OccursAt(s, 0, d) && FindClose(s, |d|, d).Some?
    ensures var k := FindClose(s, |d|, d).value;
      |d| <= k && k + |d| <= |s|
      && s == d + s[|d|..k] + d + s[k + |d|..]
      && StripEmphasis(s, d) == s[|d|..k] + StripEmphasis(s[k + |d|..], d)
  {
    var k := FindClose(s, |d|, d).value;
    assert s[0..|d|] == d && s[k..k + |d|] == d;
    SliceConcat(s, 0, |d|, k);
    SliceConcat(s, k, k + |d|, |s|);
    SliceConcat(s, 0, k, |s|);
    assert s[0..|s|] == s;
  }

  /** Deleting both delimiters around a kept content only deletes asterisks. */
  lemma DeletesDelimiters(d: string, content: string, rest: string, r: string)
    requires IsDelimiter(d) && DeletesOnlyStars(rest, r)
    ensures DeletesOnlyStars(d + content + d + rest, content + r)
  {
    DeletesAllStars(d);
    DeletesOnlyStarsRefl(content);
    DeletesOnlyStarsConcat(d, [], content, content);
    assert [] + content == content;
    DeletesOnlyStarsConcat(d + content, content, d, []);
    assert content + [] == content;
    DeletesOnlyStarsConcat(d + content + d, content, rest, r);
  }

  /** A replace pass with an asterisk delimiter only deletes asterisks. */
  lemma {:induction false} StripDeletesOnlyStars(s: string, d: string)
    requires IsDelimiter(d)
    decreases |s|
    ensures DeletesOnlyStars(s, StripEmphasis(s, d))
  {
    if s == [] {
    } else if OccursAt(s, 0, d) && FindClose(s, |d|, d).Some? {
      var k := FindClose(s, |d|, d).value;
      StripMatch(s, d);
      StripDeletesOnlyStars(s[k + |d|..], d);
      DeletesDelimiters(d, s[|d|..k], s[k + |d|..], StripEmphasis(s[k + |d|..], d));
    } else {
      StripDeletesOnlyStars(s[1..], d);
      var r := StripEmphasis(s, d);
      assert r[0] == s[0] && r[1..] == StripEmphasis(s[1..], d);
    }
  }

  /** Before trimming, the cleanup only deletes asterisks: a subsequence, never longer. */
  lemma UnemphasizeDeletesOnlyStars(text: string)
    ensures DeletesOnlyStars(text, Unemphasize(text))
    ensures IsSubsequence(Unemphasize(text), text) && |Unemphasize(text)| <= |text|
    ensures Unstarred(Unemphasize(text)) == Unstarred(text)
  {
    var bold := StripEmphasis(text, Bold);
    StripDeletesOnlyStars(text, Bold);
    StripDeletesOnlyStars(bold, Italic);
    DeletesOnlyStarsTrans(text, bold, Unemphasize(text));
    DeletesOnlyStarsMeaning(text, Unemphasize(text));
  }

  /**
   * Read left to right, no line holds two asterisks; `starSeen` says that the
   * current line already held one.
   */
  predicate OneStarPerLine(s: string, starSeen: bool)
    decreases |s|
  {
    if s == [] then true
    else if IsLineTerminator(s[0]) then OneStarPerLine(s[1..], false)
    else if s[0] == '*' then !starSeen && OneStarPerLine(s[1..], true)
    else OneStarPerLine(s[1..], starSeen)
  }

  /** One step of the line reading. */
  lemma OneStarPerLineCons(c: char, t: string, starSeen: bool)
    ensures OneStarPerLine([c] + t, starSeen) ==
      if IsLineTerminator(c) then OneStarPerLine(t, false)
      else if c == '*' then !starSeen && OneStarPerLine(t, true)
      else OneStarPerLine(t, starSeen)
  {
    assert ([c] + t)[0] == c && ([c] + t)[1..] == t;
  }

  lemma OccursStar(s: string, i: nat)
    ensures OccursAt(s, i, Italic) <==> i < |s| && s[i] == '*'
  {
    if i < |s| && s[i] == '*' {
      assert s[i..i + 1] == [s[i]];
    }
  }

  /** Text with neither asterisks nor line breaks does not change the line reading. */
  lemma {:induction false} OneStarPerLinePlain(x: string, y: string, starSeen: bool)
    requires '*' !in x && OnOneLine(x, 0, |x|)
    ensures OneStarPerLine(x + y, starSeen) == OneStarPerLine(y, starSeen)
  {
    if x == [] {
      assert x + y == y;
    } else {
      assert (x + y)[0] == x[0] && (x + y)[1..] == x[1..] + y;
      assert x[0] in x && !IsLineTerminator(x[0]);
      assert forall c | c in x[1..] :: c in x;
      assert OnOneLine(x[1..], 0, |x[1..]|) by {
        forall k | 0 <= k < |x[1..]| ensures !IsLineTerminator(x[1..][k]) {
          assert x[1..][k] == x[k + 1];
        }
      }
      OneStarPerLinePlain(x[1..], y, starSeen);
      assert x[0] != '*';
      assert OneStarPerLine(x + y, starSeen) == OneStarPerLine((x + y)[1..], starSeen);
    }
  }

  /** No asterisk between index `j` and the end of its line. */
  predicate StarFreeLine(s: string, j: nat)
    requires j <= |s|
  {
    forall m | j <= m < |s| && OnOneLine(s, j, m) :: s[m] != '*'
  }

  /** No two asterisks of `s` lie on one line: a line terminator separates any two. */
  predicate NoLineHasTwoStars(s: string) {
    forall i, j | 0 <= i < j < |s| && s[i] == '*' && s[j] == '*' :: !OnOneLine(s, i, j)
  }

  lemma OnOneLineShift(s: string, i: nat, j: nat)
    requires 1 <= i <= j <= |s|
    ensures OnOneLine(s, i, j) <==> OnOneLine(s[1..], i - 1, j - 1)
  {
    assert forall k | i - 1 <= k < j - 1 :: s[1..][k] == s[k + 1];
  }

  /** The left-to-right reading means what it says: every line holds at most one asterisk. */
  lemma {:induction false} OneStarPerLineMeaning(s: string, starSeen: bool)
    requires OneStarPerLine(s, starSeen)
    ensures NoLineHasTwoStars(s)
    ensures starSeen ==> StarFreeLine(s, 0)
  {
    if s != [] {
      var t := s[1..];
      var seen := if IsLineTerminator(s[0]) then false else if s[0] == '*' then true else starSeen;
      OneStarPerLineMeaning(t, seen);
      forall i, j | 0 <= i < j < |s| && s[i] == '*' && s[j] == '*' ensures !OnOneLine(s, i, j) {
        OnOneLineShift(s, 1, j);
        assert t[j - 1] == s[j];
        if i > 0 {
          OnOneLineShift(s, i, j);
          assert t[i - 1] == s[i];
        }
      }
      if starSeen {
        forall m | 0 < m < |s| && OnOneLine(s, 0, m) ensures s[m] != '*' {
          OnOneLineShift(s, 1, m);
          assert t[m - 1] == s[m];
        }
      }
    }
  }

  /**
   * A matched italic span: its content is asterisk-free text on one line, and
   * the pass resumes after it with no asterisk on the current line.
   */
  lemma ItalicMatch(s: string, starSeen: bool)
    requires OccursAt(s, 0, Italic) && FindClose(s, 1, Italic).Some?
    requires starSeen ==> StarFreeLine(s, 0)
    ensures var k := FindClose(s, 1, Italic).value;
      1 <= k < |s|
      && StripEmphasis(s, Italic) == s[1..k] + StripEmphasis(s[k + 1..], Italic)
      && '*' !in s[1..k] && OnOneLine(s[1..k], 0, k - 1)
      && (OneStarPerLine(StripEmphasis(s[k + 1..], Italic), false) ==>
          OneStarPerLine(StripEmphasis(s, Italic), starSeen))
  {
    var k := FindClose(s, 1, Italic).value;
    SpanWithoutStar(s, 1, k);
    OccursStar(s, 0);
    assert OnOneLine(s, 0, 0);
    OneStarPerLinePlain(s[1..k], StripEmphasis(s[k + 1..], Italic), starSeen);
  }

  /** Text on one line with no '*' occurrence in it, viewed as a slice of its own. */
  lemma SpanWithoutStar(s: string, i: nat, k: nat)
    requires i <= k <= |s| && OnOneLine(s, i, k)
    requires forall m | i <= m < k :: !OccursAt(s, m, Italic)
    ensures '*' !in s[i..k] && OnOneLine(s[i..k], 0, k - i)
  {
    forall m | 0 <= m < k - i ensures s[i..k][m] != '*' && !IsLineTerminator(s[i..k][m]) {
      OccursStar(s, m + i);
    }
  }

  /** An unmatched '*' is kept, and has no other '*' after it on its line. */
  lemma ItalicUnmatched(s: string, starSeen: bool)
    requires s != [] && s[0] == '*' && FindClose(s, 1, Italic).None?
    requires starSeen ==> StarFreeLine(s, 0)
    ensures StripEmphasis(s, Italic) == [s[0]] + StripEmphasis(s[1..], Italic)
    ensures StarFreeLine(s[1..], 0)
    ensures OneStarPerLine(StripEmphasis(s[1..], Italic), true) ==> OneStarPerLine(StripEmphasis(s, Italic), starSeen)
  {
    OccursStar(s, 0);
    assert OnOneLine(s, 0, 0);
    forall m | 0 <= m < |s| - 1 && OnOneLine(s[1..], 0, m) ensures s[1..][m] != '*' {
      OnOneLineShift(s, 1, m + 1);
      OccursStar(s, m + 1);
    }
    OneStarPerLineCons(s[0], StripEmphasis(s[1..], Italic), starSeen);
  }

  /** A character other than '*' is kept, and ends the line's star-free stretch only if it ends the line. */
  lemma ItalicPlain(s: string, starSeen: bool)
    requires s != [] && s[0] != '*'
    requires starSeen ==> StarFreeLine(s, 0)
    ensures StripEmphasis(s, Italic) == [s[0]] + StripEmphasis(s[1..], Italic)
    ensures !IsLineTerminator(s[0]) && starSeen ==> StarFreeLine(s[1..], 0)
    ensures OneStarPerLine(StripEmphasis(s[1..], Italic), if IsLineTerminator(s[0]) then false else starSeen) ==>
      OneStarPerLine(StripEmphasis(s, Italic), starSeen)
  {
    OccursStar(s, 0);
    if !IsLineTerminator(s[0]) && starSeen {
      forall m | 0 <= m < |s| - 1 && OnOneLine(s[1..], 0, m) ensures s[1..][m] != '*' {
        assert OnOneLine(s, 0, m + 1);
      }
    }
    OneStarPerLineCons(s[0], StripEmphasis(s[1..], Italic), starSeen);
  }

  /**
   * After the italic pass no line holds two asterisks: any unmatched '*'
   * has no other '*' after it on its line, and a replaced content holds none.
   */
  lemma {:induction false} ItalicLeavesOneStarPerLine(s: string, starSeen: bool)
    requires starSeen ==> StarFreeLine(s, 0)
    decreases |s|
    ensures OneStarPerLine(StripEmphasis(s, Italic), starSeen)
  {
    if s == [] {
    } else if OccursAt(s, 0, Italic) && FindClose(s, 1, Italic).Some? {
      ItalicMatch(s, starSeen);
      ItalicLeavesOneStarPerLine(s[FindClose(s, 1, Italic).value + 1..], false);
    } else if s[0] == '*' {
      OccursStar(s, 0);
      ItalicUnmatched(s, starSeen);
      ItalicLeavesOneStarPerLine(s[1..], true);
    } else {
      ItalicPlain(s, starSeen);
      ItalicLeavesOneStarPerLine(s[1..], if IsLineTerminator(s[0]) then false else starSeen);
    }
  }

  /** After both passes no line (text between line terminators) holds two asterisks. */
  lemma UnemphasizeLeavesOneStarPerLine(text: string)
    ensures NoLineHasTwoStars(Unemphasize(text))
  {
    ItalicLeavesOneStarPerLine(StripEmphasis(text, Bold), false);
    OneStarPerLineMeaning(Unemphasize(text), false);
  }

  /** An occurrence of an asterisk delimiter is a run of asterisks in the text. */
  lemma OccurrenceIsStars(s: string, i: nat, d: string)
    requires IsDelimiter(d)
    ensures OccursAt(s, i, d) ==> forall j | i <= j < i + |d| :: s[j] == '*'
  {
    if OccursAt(s, i, d) {
      forall j | i <= j < i + |d| ensures s[j] == '*' {
        assert s[j] == s[i..i + |d|][j - i];
      }
    }
  }

  /** A pass copies asterisk-free text verbatim. */
  lemma {:induction false} StripAfterStarFree(p: string, q: string, d: string)
    requires IsDelimiter(d) && '*' !in p
    ensures StripEmphasis(p + q, d) == p + StripEmphasis(q, d)
  {
    if p == [] {
      assert p + q == q;
    } else {
      var s := p + q;
      assert p == [p[0]] + p[1..];
      assert s == [p[0]] + (p[1..] + q);
      OccurrenceIsStars(s, 0, d);
      StripAfterStarFree(p[1..], q, d);
    }
  }

  /** A pass copies text in which its delimiter never occurs. */
  lemma {:induction false} StripWithoutDelimiter(s: string, d: string)
    requires d != [] && forall i | 0 <= i <= |s| :: !OccursAt(s, i, d)
    decreases |s|
    ensures StripEmphasis(s, d) == s
  {
    if s != [] {
      forall i | 0 <= i <= |s| - 1 ensures !OccursAt(s[1..], i, d) {
        if OccursAt(s[1..], i, d) {
          assert s[1..][i..i + |d|] == s[i + 1..i + 1 + |d|];
          assert OccursAt(s, i + 1, d);
        }
      }
      StripWithoutDelimiter(s[1..], d);
    }
  }

  /** `D x D` followed by anything becomes `x` when `x` has no asterisk and no line break. */
  lemma StripWrapped(x: string, q: string, d: string)
    requires IsDelimiter(d) && '*' !in x && OnOneLine(x, 0, |x|)
    ensures StripEmphasis(d + x + d + q, d) == x + StripEmphasis(q, d)
  {
    var s := d + x + d + q;
    var k := |d| + |x|;
    assert s[..|d|] == d;
    assert s[k..k + |d|] == d;
    assert s[|d|..k] == x;
    assert s[k + |d|..] == q;
    assert OnOneLine(s, |d|, k) by {
      forall m | |d| <= m < k ensures !IsLineTerminator(s[m]) {
        assert s[m] == x[m - |d|];
      }
    }
    forall m | |d| <= m < k ensures !OccursAt(s, m, d) {
      assert s[m] == x[m - |d|] && x[m - |d|] in x;
      OccurrenceIsStars(s, m, d);
    }
    assert OccursAt(s, k, d);
  }

  /** `**x**` cleans to `x`, trimmed, when `x` has no asterisk and no line break. */
  lemma CleanBold(x: string)
    requires '*' !in x && OnOneLine(x, 0, |x|)
    ensures Clean(Bold + x + Bold) == Trim(x)
  {
    StripWrapped(x, [], Bold);
    assert Bold + x + Bold + [] == Bold + x + Bold;
    assert StripEmphasis([], Bold) == [];
    StripAfterStarFree(x, [], Italic);
    assert x + [] == x;
  }

  /** `*x*` cleans to `x`, trimmed, when `x` has no asterisk and no line break. */
  lemma CleanItalic(x: string)
    requires '*' !in x && OnOneLine(x, 0, |x|)
    ensures Clean(Italic + x + Italic) == Trim(x)
  {
    var s := Italic + x + Italic;
    if x == [] {
      assert s == Bold;
      assert FindClose(s, 2, Bold).None?;
      assert StripEmphasis(s[1..], Bold) == s[1..];
    } else {
      forall i | 0 <= i <= |s| ensures !OccursAt(s, i, Bold) {
        OccurrenceIsStars(s, i, Bold);
        if i == 0 {
          assert s[1] == x[0] && x[0] in x;
        } else if i < |s| - 1 {
          assert s[i] == x[i - 1] && x[i - 1] in x;
        }
      }
      StripWithoutDelimiter(s, Bold);
    }
    StripWrapped(x, [], Italic);
    assert s + [] == s;
    assert StripEmphasis([], Italic) == [];
    assert x + [] == x;
  }

  /** A text without asterisks comes back only trimmed. */
  lemma CleanStarFree(text: string)
    requires '*' !in text
    ensures Clean(text) == Trim(text)
  {
    StripAfterStarFree(text, [], Bold);
    StripAfterStarFree(text, [], Italic);
    assert text + [] == text;
  }

  // ---------------------------------------------------------------------------
  // The handler
  // ---------------------------------------------------------------------------

  /**
   * The POST handler given what the upstream call returns for each prompt:
   * a non-ok upstream status is passed on with a fixed error, a throw becomes
   * 500 with another, and a success is 200 with the cleaned text, the mode
   * as received (after its default) and the prompt as received.
   */
  function Handle(req: Request, upstream: string -> Upstream): (r: Reply)
    ensures upstream(SelectedPrompt(req)).CallThrew? ==> r == Reply(500, Failed(ProcessingFailed))
    ensures upstream(SelectedPrompt(req)).Answered? && !IsOk(upstream(SelectedPrompt(req)).status) ==>
      r == Reply(upstream(SelectedPrompt(req)).status, Failed(FetchFailed))
    ensures upstream(SelectedPrompt(req)).Answered? && IsOk(upstream(SelectedPrompt(req)).status) ==>
      r.status == 200 && r.body.Generated?
      && r.body.geminiResponse == GeminiResponse(upstream(SelectedPrompt(req)).text)
      && r.body.mode == ResolveMode(req.mode) && r.body.originalPrompt == req.prompt
    ensures r.body.Failed? ==> r.body.error != []
    ensures r.body.Generated? ==> r.body.geminiResponse != []
    ensures r.body.Generated? ==> r.body.mode == ResolveMode(req.mode) && r.body.originalPrompt == req.prompt
  {
    match upstream(SelectedPrompt(req))
    case CallThrew => Reply(500, Failed(ProcessingFailed))
    case Answered(status, text) =>
      if !IsOk(status) then Reply(status, Failed(FetchFailed))
      else Reply(200, Generated(GeminiResponse(text), ResolveMode(req.mode), req.prompt))
  }

  /** A request without a mode is handled exactly like one with mode "normal", reply included. */
  lemma MissingModeIsNormal(prompt: Option<string>, upstream: string -> Upstream)
    ensures Handle(Request(prompt, None), upstream) == Handle(Request(prompt, Some("normal")), upstream)
  {
  }

  /** An unknown mode is sent the normal template. */
  lemma UnknownModeUsesNormal(prompt: Option<string>, mode: string)
    requires ToneOf(mode).None?
    ensures SelectedTone(Request(prompt, Some(mode))) == Normal
    ensures SelectedPrompt(Request(prompt, Some(mode))) == Template(Normal, PromptText(prompt))
  {
    ToneSelection(Request(prompt, Some(mode)));
  }

  /**
   * The success body echoes the mode as received, not the template it chose:
   * an unknown mode (sent the normal template, see UnknownModeUsesNormal) is reported as given.
   */
  lemma UnknownModeEchoedVerbatim(prompt: Option<string>, mode: string, upstream: string -> Upstream)
    requires ToneOf(mode).None?
    ensures var body := Handle(Request(prompt, Some(mode)), upstream).body;
      body.Generated? ==> body.mode == mode && body.originalPrompt == prompt
  {
  }

  /** A reply opening with `**x**` and otherwise free of asterisks cleans to `x` and the rest, trimmed. */
  lemma CleanLeadingBold(head: string, rest: string)
    requires '*' !in head && OnOneLine(head, 0, |head|) && '*' !in rest
    ensures Clean(Bold + head + Bold + rest) == Trim(head + rest)
  {
    StripWrapped(head, rest, Bold);
    StripAfterStarFree(rest, [], Bold);
    assert rest + [] == rest;
    assert forall c | c in head + rest :: c in head || c in rest;
    StripAfterStarFree(head + rest, [], Italic);
    assert head + rest + [] == head + rest;
  }

  /**
   * A request whose upstream answers `**head**rest`, with no other asterisk
   * and a non-blank result, gets 200 with that text unmarked and trimmed.
   */
  lemma LeadingBoldReply(prompt: string, mode: string, head: string, rest: string)
    requires '*' !in head && OnOneLine(head, 0, |head|) && '*' !in rest
    requires Trim(head + rest) != []
    ensures Handle(Request(Some(prompt), Some(mode)), _ => Answered(200, Some(Bold + head + Bold + rest)))
      == Reply(200, Generated(Trim(head + rest), mode, Some(prompt)))
  {
    var text := Bold + head + Bold + rest;
    var req, upstream := Request(Some(prompt), Some(mode)), (_ => Answered(200, Some(text)));
    assert upstream(SelectedPrompt(req)) == Answered(200, Some(text));
    CleanLeadingBold(head, rest);
    assert GeminiResponse(Some(text)) == Trim(head + rest);
  }
}
