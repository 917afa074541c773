/** The serverless analysis function (netlify/functions/analyze-publication.js):
    the request gate of its handler, the choice between a content prompt
    and a title-only prompt, the sentence selection and truncation that
    shape the page text, the clean-up of the model's reply (code fences,
    the JSON slice, the fallback summary) and the diagram it attaches. */
module Analyze {
  import opened Seqs
  import opened Text
  import opened Diagrams

  // -------------------------------------------------------------- request gate

  /** The two fields the handler destructures from the JSON body;
      `None` is a field that is absent or `null`. */
  datatype Payload = Payload(publicationTitle: Option<string>, publicationLink: Option<string>)

  /** An incoming event: its HTTP method and its body, `None` when
      `JSON.parse` throws or yields no object to destructure. */
  datatype Request = Request(httpMethod: string, body: Option<Payload>)

  /** A reply of the gate: its status code and the `error` field of its
      JSON body, `None` for the empty body of the preflight reply. */
  datatype Reply = Reply(statusCode: nat, error: Option<string>)

  /** The gate either answers at once or lets the analysis go ahead. */
  datatype Gate =
    | Respond(reply: Reply)
    | Proceed(title: string, link: Option<string>, apiKey: string)

  /** JavaScript truthiness of an optional string: present and non-empty. */
  predicate Truthy(s: Option<string>)
  {
    s.Some? && s.value != ""
  }

  /** Lines 10-41 of the handler: the CORS preflight, the method check, the
      body parse, the title check and the API-key check, in this order. */
  function GateRequest(req: Request, apiKey: Option<string>): (g: Gate)
    ensures req.httpMethod == "OPTIONS" ==> g == Respond(Reply(200, None))
    ensures req.httpMethod != "OPTIONS" && req.httpMethod != "POST" ==>
      g == Respond(Reply(405, Some("Method not allowed")))
    ensures req.httpMethod == "POST" && req.body.None? ==>
      g == Respond(Reply(500, Some("Internal server error")))
    ensures req.httpMethod == "POST" && req.body.Some? && !Truthy(req.body.value.publicationTitle) ==>
      g == Respond(Reply(400, Some("Publication title is required")))
    ensures req.httpMethod == "POST" && req.body.Some? && Truthy(req.body.value.publicationTitle) && !Truthy(apiKey) ==>
      g == Respond(Reply(500, Some("API key not configured")))
    ensures g.Proceed? <==>
      req.httpMethod == "POST" && req.body.Some? && Truthy(req.body.value.publicationTitle) && Truthy(apiKey)
    ensures g.Proceed? ==>
      && g.title == req.body.value.publicationTitle.value
      && g.link == req.body.value.publicationLink
      && g.apiKey == apiKey.value
  {
    if req.httpMethod == "OPTIONS" then Respond(Reply(200, None))
    else if req.httpMethod != "POST" then Respond(Reply(405, Some("Method not allowed")))
    else match req.body
      case None => Respond(Reply(500, Some("Internal server error")))
      case Some(payload) =>
        if !Truthy(payload.publicationTitle) then Respond(Reply(400, Some("Publication title is required")))
        else if !Truthy(apiKey) then Respond(Reply(500, Some("API key not configured")))
        else Proceed(payload.publicationTitle.value, payload.publicationLink, apiKey.value)
  }

  /** The preflight is answered before anything else is looked at: neither
      the body nor the key matters. */
  lemma PreflightFirst(body1: Option<Payload>, body2: Option<Payload>, key1: Option<string>, key2: Option<string>)
    ensures GateRequest(Request("OPTIONS", body1), key1) == GateRequest(Request("OPTIONS", body2), key2)
    ensures GateRequest(Request("OPTIONS", body1), key1).reply.statusCode == 200
  {
  }

  /** The title is checked before the key: a request without a title gets
      the same reply whether or not a key is configured. */
  lemma TitleBeforeKey(req: Request, key1: Option<string>, key2: Option<string>)
    requires req.httpMethod == "POST" && req.body.Some? && !Truthy(req.body.value.publicationTitle)
    ensures GateRequest(req, key1) == GateRequest(req, key2)
    ensures GateRequest(req, key1).reply.statusCode == 400
  {
  }

  /** Only the preflight is answered with a success code by the gate; every
      other reply it gives is 400, 405 or 500. */
  lemma GateStatusCodes(req: Request, apiKey: Option<string>)
    ensures GateRequest(req, apiKey).Respond? ==>
      var code := GateRequest(req, apiKey).reply.statusCode;
      (code == 200 <==> req.httpMethod == "OPTIONS") && (code == 200 || code == 400 || code == 405 || code == 500)
  {
  }

  // ------------------------------------------------------------ prompt choice

  datatype ContentSource = TitleOnly | FullContent

  /** Lines 49-74: the page is used only when the link mentions "http" and
      the fetch produced a text (`page`; `None` when the response was not
      OK or the fetch threw). The text is what `extractTextFromHTML` made
      of the page. */
  function FetchedContent(link: Option<string>, page: Option<string>): (fetched: (string, ContentSource))
    ensures fetched.1 == FullContent <==> link.Some? && Contains(link.value, "http") && page.Some?
    ensures fetched.1 == FullContent ==> fetched.0 == page.value
    ensures fetched.1 == TitleOnly ==> fetched.0 == ""
  {
    if link.Some? && Contains(link.value, "http") && page.Some? then (page.value, FullContent)
    else ("", TitleOnly)
  }

  /** The page excerpt the prompt quotes (line 79-81), or `None` for the
      title-only prompt (line 118). */
  function PromptExcerpt(content: string, source: ContentSource): (excerpt: Option<string>)
    ensures excerpt.Some? <==> source == FullContent && |content| > 500
    ensures excerpt.Some? ==> excerpt.value == TruncateContent(content, 3000)
  {
    if source == FullContent && |content| > 500 then Some(TruncateContent(content, 3000)) else None
  }

  /** The content prompt is chosen exactly when the link mentions "http"
      and the page text came back longer than 500 characters; the excerpt
      it quotes then fits in 3000 characters and is the page text itself
      when that already fits. */
  lemma PromptUsesPage(link: Option<string>, page: Option<string>)
    ensures PromptExcerpt(FetchedContent(link, page).0, FetchedContent(link, page).1).Some?
        <==> link.Some? && Contains(link.value, "http") && page.Some? && |page.value| > 500
    ensures PromptExcerpt(FetchedContent(link, page).0, FetchedContent(link, page).1).Some? ==>
        var excerpt := PromptExcerpt(FetchedContent(link, page).0, FetchedContent(link, page).1).value;
        |excerpt| <= 3000 && (|page.value| <= 3000 ==> excerpt == page.value)
  {
    if page.Some? {
      TruncateFits(page.value, 3000);
    }
  }

  // --------------------------------------------------------------- truncation

  /** What `truncateContent` puts between the head and the tail. */
  const TruncationMarker := "\n\n[...content truncated...]\n\n"

  /** `maxLength * 0.6`, a whole number when `maxLength` is a multiple of ten. */
  function HeadLength(maxLength: nat): (h: nat)
    requires maxLength % 10 == 0
    ensures 10 * h == 6 * maxLength
  {
    maxLength / 10 * 6
  }

  /** `maxLength * 0.3`, a whole number when `maxLength` is a multiple of ten. */
  function TailLength(maxLength: nat): (t: nat)
    requires maxLength % 10 == 0
    ensures 10 * t == 3 * maxLength
  {
    maxLength / 10 * 3
  }

  /** `truncateContent(content, maxLength)`: short content is kept; longer
      content keeps its first 60% and its last 30% of `maxLength`
      characters around the marker. */
  function TruncateContent(content: string, maxLength: nat): (r: string)
    requires maxLength % 10 == 0
    ensures |content| <= maxLength ==> r == content
    ensures |content| > maxLength ==>
      var head := HeadLength(maxLength);
      var tail := TailLength(maxLength);
      && |r| == head + |TruncationMarker| + tail
      && r[..head] == content[..head]
      && r[head..head + |TruncationMarker|] == TruncationMarker
      && r[|r| - tail..] == content[|content| - tail..]
  {
    if |content| <= maxLength then content
    else
      var beginning := content[..HeadLength(maxLength)];
      var end := content[|content| - TailLength(maxLength)..];
      assert (beginning + TruncationMarker + end)[..|beginning|] == beginning;
      beginning + TruncationMarker + end
  }

  /** With room for the marker (a limit of at least 290), the result is
      never longer than the limit. */
  lemma TruncateFits(content: string, maxLength: nat)
    requires maxLength % 10 == 0 && maxLength >= 290
    ensures |TruncateContent(content, maxLength)| <= maxLength
  {
  }

  /** Truncating twice is truncating once. */
  lemma TruncateIdempotent(content: string, maxLength: nat)
    requires maxLength % 10 == 0 && maxLength >= 290
    ensures TruncateContent(TruncateContent(content, maxLength), maxLength) == TruncateContent(content, maxLength)
  {
    TruncateFits(content, maxLength);
  }

  // ------------------------------------------------------- sentence selection

  /** The characters of the class `[.!?]`. */
  predicate IsTerminator(c: char)
  {
    c == '.' || c == '!' || c == '?'
  }

  predicate NotTerminator(c: char)
  {
    !IsTerminator(c)
  }

  /** Position of the first terminator, or the length when there is none. */
  function FirstTerminator(t: string): (i: nat)
    ensures i <= |t|
    ensures forall k :: 0 <= k < i ==> !IsTerminator(t[k])
    ensures i < |t| ==> IsTerminator(t[i])
  {
    if t == [] || IsTerminator(t[0]) then 0 else 1 + FirstTerminator(t[1..])
  }

  /** Length of the run of terminators `t` starts with. */
  function TerminatorRun(t: string): (n: nat)
    ensures n <= |t|
    ensures forall k :: 0 <= k < n ==> IsTerminator(t[k])
    ensures n < |t| ==> !IsTerminator(t[n])
  {
    if t != [] && IsTerminator(t[0]) then 1 + TerminatorRun(t[1..]) else 0
  }

  /** `text.split(/[.!?]+/)`: the pieces between the runs of terminators,
      with an empty piece after a final run. */
  function SplitSentences(t: string): (pieces: seq<string>)
    ensures |pieces| >= 1
    ensures forall k, c :: 0 <= k < |pieces| && c in pieces[k] ==> !IsTerminator(c)
    decreases |t|
  {
    var i := FirstTerminator(t);
    if i == |t| then [t]
    else
      var rest := t[i..];
      [t[..i]] + SplitSentences(rest[TerminatorRun(rest)..])
  }

  /** The runs of terminators `split(/[.!?]+/)` cuts at, in order. */
  function TerminatorRuns(t: string): (runs: seq<string>)
    ensures forall k :: 0 <= k < |runs| ==> runs[k] != []
    ensures forall k, c :: 0 <= k < |runs| && c in runs[k] ==> IsTerminator(c)
    decreases |t|
  {
    var i := FirstTerminator(t);
    if i == |t| then []
    else
      var rest := t[i..];
      var n := TerminatorRun(rest);
      [rest[..n]] + TerminatorRuns(rest[n..])
  }

  /** The pieces with the runs put back between them:
      `pieces[0] + runs[0] + pieces[1] + ... + pieces[|runs|]`. */
  function Interleave(pieces: seq<string>, runs: seq<string>): string
    requires |pieces| == |runs| + 1
    decreases |runs|
  {
    if runs == [] then pieces[0] else pieces[0] + runs[0] + Interleave(pieces[1..], runs[1..])
  }

  lemma InterleaveCons(piece: string, run: string, pieces: seq<string>, runs: seq<string>)
    requires |pieces| == |runs| + 1
    ensures Interleave([piece] + pieces, [run] + runs) == piece + run + Interleave(pieces, runs)
  {
    assert ([piece] + pieces)[1..] == pieces;
    assert ([run] + runs)[1..] == runs;
  }

  /** The split cuts at every run of terminators and only there: the text
      is its pieces with the (non-empty, all-terminator) runs between them,
      one run fewer than there are pieces, and no piece strictly between
      two runs is empty, so no run is cut in two. */
  lemma {:induction false} SplitSentencesCutsAtRuns(t: string)
    ensures |SplitSentences(t)| == |TerminatorRuns(t)| + 1
    ensures Interleave(SplitSentences(t), TerminatorRuns(t)) == t
    ensures forall k :: 0 < k < |SplitSentences(t)| - 1 ==> SplitSentences(t)[k] != []
    decreases |t|
  {
    var i := FirstTerminator(t);
    if i == |t| {
      assert SplitSentences(t) == [t];
    } else {
      var rest := t[i..];
      var n := TerminatorRun(rest);
      var tail := rest[n..];
      SplitSentencesCutsAtRuns(tail);
      var pieces := SplitSentences(tail);
      assert SplitSentences(t) == [t[..i]] + pieces;
      assert TerminatorRuns(t) == [rest[..n]] + TerminatorRuns(tail);
      InterleaveCons(t[..i], rest[..n], pieces, TerminatorRuns(tail));
      SplitTwice(t, i, n);
      if |pieces| > 1 {
        // the piece after this run starts where the run ends
        assert tail != [];
        assert !IsTerminator(tail[0]);
        FirstPieceNonEmpty(tail);
      }
    }
  }

  /** A text that starts with a non-terminator has a non-empty first piece. */
  lemma FirstPieceNonEmpty(t: string)
    requires t != [] && !IsTerminator(t[0])
    ensures SplitSentences(t)[0] != []
  {
    assert FirstTerminator(t) > 0;
  }

  /** The text before the first terminator passes the filter whole. */
  lemma BeforeTerminatorKept(t: string)
    ensures Filter(t[..FirstTerminator(t)], NotTerminator) == t[..FirstTerminator(t)]
  {
    var p := t[..FirstTerminator(t)];
    forall x | x in p ensures NotTerminator(x) {
      var k :| 0 <= k < |p| && p[k] == x;
      assert t[k] == x;
    }
    FilterKeepsAll(p, NotTerminator);
  }

  /** A run of terminators is filtered out entirely. */
  lemma TerminatorRunDropped(t: string)
    ensures Filter(t[..TerminatorRun(t)], NotTerminator) == []
  {
    var p := t[..TerminatorRun(t)];
    forall x | x in p ensures !NotTerminator(x) {
      var k :| 0 <= k < |p| && p[k] == x;
      assert t[k] == x;
    }
    FilterKeepsNone(p, NotTerminator);
  }

  /** Filtering a text that has a terminator keeps what comes before the
      first one and drops the run of terminators that starts there. */
  lemma FilterAroundRun(t: string)
    requires FirstTerminator(t) < |t|
    ensures Filter(t, NotTerminator)
         == t[..FirstTerminator(t)] + Filter(t[FirstTerminator(t)..][TerminatorRun(t[FirstTerminator(t)..])..], NotTerminator)
  {
    var i := FirstTerminator(t);
    var rest := t[i..];
    var n := TerminatorRun(rest);
    calc {
      Filter(t, NotTerminator);
    == { SplitAt(t, i); FilterAppend(t[..i], rest, NotTerminator); }
      Filter(t[..i], NotTerminator) + Filter(rest, NotTerminator);
    == { SplitAt(rest, n); FilterAppend(rest[..n], rest[n..], NotTerminator); }
      Filter(t[..i], NotTerminator) + (Filter(rest[..n], NotTerminator) + Filter(rest[n..], NotTerminator));
    == { BeforeTerminatorKept(t); TerminatorRunDropped(rest); }
      t[..i] + ([] + Filter(rest[n..], NotTerminator));
    == { EmptyFront(Filter(rest[n..], NotTerminator)); }
      t[..i] + Filter(rest[n..], NotTerminator);
    }
  }

  /** Splitting only drops terminators: the pieces put back together are
      the text without its `.`, `!` and `?`. */
  lemma {:induction false} SplitSentencesDropsTerminators(t: string)
    ensures Concat(SplitSentences(t)) == Filter(t, NotTerminator)
    decreases |t|
  {
    var i := FirstTerminator(t);
    if i == |t| {
      BeforeTerminatorKept(t);
      assert t[..i] == t;
      ConcatCons(t, []);
    } else {
      var rest := t[i..];
      var tail := rest[TerminatorRun(rest)..];
      assert SplitSentences(t) == [t[..i]] + SplitSentences(tail);
      ConcatCons(t[..i], SplitSentences(tail));
      SplitSentencesDropsTerminators(tail);
      FilterAroundRun(t);
    }
  }

  /** The keywords `extractSections` looks for. */
  const SectionKeywords: seq<string> := [
    "abstract", "introduction", "background", "methods", "methodology",
    "results", "findings", "discussion", "conclusion", "implications"]

  /** The `filter` after the split: more than 20 characters once trimmed. */
  predicate LongEnough(sentence: string)
  {
    |Trim(sentence)| > 20
  }

  /** The test inside the loop: a section keyword in the lower-cased
      sentence, or more than 100 characters. */
  predicate Important(sentence: string)
  {
    Mentions(Lower(sentence), SectionKeywords) || |sentence| > 100
  }

  predicate Kept(sentence: string)
  {
    LongEnough(sentence) && Important(sentence)
  }

  /** `sentences` in `extractSections`. */
  function Sentences(text: string): seq<string>
  {
    Filter(SplitSentences(text), LongEnough)
  }

  /** `importantSentences` after the loop. */
  function ImportantSentences(text: string): seq<string>
  {
    Map(Filter(Sentences(text), Important), Trim)
  }

  /** The value `extractSections` returns. */
  function SectionsText(text: string): string
  {
    Join(Take(ImportantSentences(text), 20), ". ") + "."
  }

  /** `extractSections(text)`: the loop pushes each important sentence,
      trimmed, and the first twenty are joined. */
  method ExtractSections(text: string) returns (sections: string)
    ensures sections == SectionsText(text)
  {
    var sentences := Filter(SplitSentences(text), LongEnough);
    var importantSentences: seq<string> := [];
    for i := 0 to |sentences|
      invariant importantSentences == Map(Filter(sentences[..i], Important), Trim)
    {
      var sentence := sentences[i];
      PrefixSnoc(sentences, i);
      FilterSnoc(sentences[..i], sentence, Important);
      var lowerSentence := Lower(sentence);
      if Mentions(lowerSentence, SectionKeywords) || |sentence| > 100 {
        MapSnoc(Filter(sentences[..i], Important), sentence, Trim);
        importantSentences := importantSentences + [Trim(sentence)];
      }
    }
    assert sentences[..|sentences|] == sentences;
    sections := Join(Take(importantSentences, 20), ". ") + ".";
  }

  /** The selected sentences are the trimmed pieces of the split that pass
      both tests, in the order of the text. */
  lemma SectionsInOrder(text: string)
    ensures ImportantSentences(text) == Map(Filter(SplitSentences(text), Kept), Trim)
    ensures IsSubsequence(Filter(SplitSentences(text), Kept), SplitSentences(text))
  {
    FilterFilter(SplitSentences(text), LongEnough, Important, Kept);
    FilterIsSubsequence(SplitSentences(text), Kept);
  }

  /** Every sentence of the result is longer than 20 characters, holds no
      terminator, and there are at most twenty of them. */
  lemma SectionsShape(text: string)
    ensures |Take(ImportantSentences(text), 20)| <= 20
    ensures forall s :: s in Take(ImportantSentences(text), 20) ==>
      |s| > 20 && forall c :: c in s ==> !IsTerminator(c)
  {
    var kept := Filter(Sentences(text), Important);
    forall s | s in Take(ImportantSentences(text), 20)
      ensures |s| > 20 && forall c :: c in s ==> !IsTerminator(c)
    {
      var k :| 0 <= k < |ImportantSentences(text)| && ImportantSentences(text)[k] == s;
      assert s == Trim(kept[k]);
      assert kept[k] in Sentences(text);
    }
  }

  /** Joining at least one piece gives at least the first piece. */
  lemma JoinCovers(pieces: seq<string>, sep: string)
    requires |pieces| >= 1
    ensures |Join(pieces, sep)| >= |pieces[0]|
  {
    if |pieces| > 1 {
      JoinCons(pieces[0], pieces[1..], sep);
      assert [pieces[0]] + pieces[1..] == pieces;
    }
  }

  /** The result is the bare "." exactly when no sentence was selected. */
  lemma SectionsEmptyWhenNoneSelected(text: string)
    ensures SectionsText(text) == "." <==> ImportantSentences(text) == []
  {
    var top := Take(ImportantSentences(text), 20);
    if top != [] {
      SectionsShape(text);
      assert top[0] in top;
      JoinCovers(top, ". ");
    }
  }

  /** The result is the bare "." exactly when no piece of the text passes
      both tests. */
  lemma SectionsEmpty(text: string)
    ensures SectionsText(text) == "." <==> forall p :: p in SplitSentences(text) ==> !Kept(p)
  {
    SectionsInOrder(text);
    SectionsEmptyWhenNoneSelected(text);
    var kept := Filter(SplitSentences(text), Kept);
    if kept != [] {
      assert kept[0] in kept;
    }
  }

  // ------------------------------------------------------- cleaning the reply

  /** `replace(/^<fence>\s*\/, '')`: the fence and the blanks after it go.
      What is left is the end of `t` that follows the fence and a maximal
      run of blanks. */
  function DropOpeningFence(t: string, fence: string): (r: string)
    ensures StartsWith(t, fence) ==>
              && |fence| + |r| <= |t| && EndsWith(t, r)
              && (forall i :: |fence| <= i < |t| - |r| ==> IsSpace(t[i]))
              && (r == [] || !IsSpace(r[0]))
    ensures !StartsWith(t, fence) ==> r == t
  {
    if StartsWith(t, fence) then TrimStart(t[|fence|..]) else t
  }

  /** `replace(/\s*```$/, '')`: a closing fence and the blanks before it go.
      What is left is the start of `t` that precedes the fence and a
      maximal run of blanks. */
  function DropClosingFence(t: string): (r: string)
    ensures EndsWith(t, "```") ==>
              && |r| + 3 <= |t| && StartsWith(t, r)
              && (forall i :: |r| <= i < |t| - 3 ==> IsSpace(t[i]))
              && (r == [] || !IsSpace(r[|r| - 1]))
    ensures !EndsWith(t, "```") ==> r == t
  {
    if EndsWith(t, "```") then TrimEnd(t[..|t| - 3]) else t
  }

  /** The text the JSON is looked for in (lines 235-241). */
  function Unfenced(aiText: string): string
  {
    var trimmed := Trim(aiText);
    var untagged := if StartsWith(trimmed, "```json") then DropClosingFence(DropOpeningFence(trimmed, "```json")) else trimmed;
    if StartsWith(untagged, "```") then DropClosingFence(DropOpeningFence(untagged, "```")) else untagged
  }

  /** Lines 235-241, step by step. */
  method StripFences(aiText: string) returns (cleanText: string)
    ensures cleanText == Unfenced(aiText)
  {
    cleanText := Trim(aiText);
    if StartsWith(cleanText, "```json") {
      cleanText := DropOpeningFence(cleanText, "```json");
      cleanText := DropClosingFence(cleanText);
    }
    if StartsWith(cleanText, "```") {
      cleanText := DropOpeningFence(cleanText, "```");
      cleanText := DropClosingFence(cleanText);
    }
  }

  /** A reply that does not start with a fence is only trimmed. */
  lemma UnfencedPlain(aiText: string)
    requires !StartsWith(Trim(aiText), "```")
    ensures Unfenced(aiText) == Trim(aiText)
  {
    StartsWithPrefix(Trim(aiText), "```json", "```");
  }

  /** Dropping a closing fence from a text without blanks at its ends
      leaves a text without blanks at its ends. */
  lemma DropClosingKeepsTrimmed(t: string)
    requires Trim(t) == t
    ensures Trim(DropClosingFence(t)) == DropClosingFence(t)
  {
    if EndsWith(t, "```") {
      var u := t[..|t| - 3];
      var r := TrimEnd(u);
      assert r != [] ==> r[0] == u[0] == t[0];
    }
  }

  /** Dropping an opening fence from a text without blanks at its ends
      leaves a text without blanks at its ends. */
  lemma DropOpeningKeepsTrimmed(t: string, fence: string)
    requires Trim(t) == t
    ensures Trim(DropOpeningFence(t, fence)) == DropOpeningFence(t, fence)
  {
    var r := DropOpeningFence(t, fence);
    if StartsWith(t, fence) && r != [] {
      // r is the end of t, so it ends where t does
      assert r[|r| - 1] == t[|t|-|r|..][|r| - 1] == t[|t| - 1];
    }
  }

  /** The cleaned reply never has blanks at its ends. */
  lemma UnfencedTrimmed(aiText: string)
    ensures Trim(Unfenced(aiText)) == Unfenced(aiText)
  {
    var trimmed := Trim(aiText);
    TrimIdempotent(aiText);
    DropOpeningKeepsTrimmed(trimmed, "```json");
    DropClosingKeepsTrimmed(DropOpeningFence(trimmed, "```json"));
    var untagged := if StartsWith(trimmed, "```json") then DropClosingFence(DropOpeningFence(trimmed, "```json")) else trimmed;
    DropOpeningKeepsTrimmed(untagged, "```");
    DropClosingKeepsTrimmed(DropOpeningFence(untagged, "```"));
  }

  /** An opening fence and the line break after it go, and nothing of a
      text that starts with no blank. */
  lemma DropOpeningFenceLine(fence: string, rest: string)
    requires rest == [] || !IsSpace(rest[0])
    ensures DropOpeningFence(fence + "\n" + rest, fence) == rest
  {
    var t := fence + "\n" + rest;
    assert t[..|fence|] == fence;
    assert t[|fence|..] == ['\n'] + rest;
    TrimStartBlank('\n', rest);
  }

  /** A closing fence and the line break before it go, and nothing of a
      text that ends with no blank. */
  lemma DropClosingFenceLine(body: string)
    requires body == [] || !IsSpace(body[|body| - 1])
    ensures DropClosingFence(body + "\n```") == body
  {
    var u := body + "\n```";
    assert u[|u| - 3..] == "```";
    assert u[..|u| - 3] == body + ['\n'];
    TrimEndBlank(body, '\n');
  }

  /** A fence, a line break, a body without blanks at its ends, a line
      break and a closing fence lose exactly the fences. */
  lemma DropFences(fence: string, body: string)
    requires body != [] && Trim(body) == body
    ensures DropClosingFence(DropOpeningFence(fence + "\n" + body + "\n```", fence)) == body
  {
    assert !IsSpace(body[0]) && !IsSpace(body[|body| - 1]);
    var rest := body + "\n```";
    assert rest[0] == body[0];
    assert fence + "\n" + body + "\n```" == fence + "\n" + rest;
    DropOpeningFenceLine(fence, rest);
    DropClosingFenceLine(body);
  }

  /** A body wrapped in a `json` code fence comes back as it was, provided
      it has no blanks at its ends and does not itself start with a fence. */
  lemma UnfenceJsonFence(body: string)
    requires body != [] && Trim(body) == body && !StartsWith(body, "```")
    ensures Unfenced("```json\n" + body + "\n```") == body
  {
    var t := "```json\n" + body + "\n```";
    assert t == "```json" + "\n" + body + "\n```";
    assert Trim(t) == t by {
      assert t[0] == '`' && t[|t| - 1] == '`';
    }
    assert StartsWith(t, "```json");
    DropFences("```json", body);
  }

  /** A body wrapped in a plain code fence comes back as it was, provided
      it has no blanks at its ends. */
  lemma UnfencePlainFence(body: string)
    requires body != [] && Trim(body) == body
    ensures Unfenced("```\n" + body + "\n```") == body
  {
    var t := "```\n" + body + "\n```";
    assert t == "```" + "\n" + body + "\n```";
    assert Trim(t) == t by {
      assert t[0] == '`' && t[|t| - 1] == '`';
    }
    assert !StartsWith(t, "```json") by {
      assert t[3] == '\n';
    }
    assert StartsWith(t, "```");
    DropFences("```", body);
  }

  /** `cleanText.match(/\{[\s\S]*\}/)`: from the first `{` to the last `}`
      when a `}` follows that `{`. */
  function JsonSlice(t: string): (slice: Option<string>)
    ensures slice.Some? ==> |slice.value| >= 2 && slice.value[0] == '{' && slice.value[|slice.value| - 1] == '}'
  {
    if '{' !in t then None
    else
      var i := IndexOf(t, '{');
      if '}' !in t[i + 1..] then None
      else
        var j := LastIndexOf(t, '}');
        assert i < j by {
          var k :| 0 <= k < |t[i + 1..]| && t[i + 1..][k] == '}';
          assert t[i + 1 + k] == '}';
          LastIndexOfLast(t, '}');
        }
        Some(t[i..j + 1])
  }

  /** There is a slice exactly when some `{` is followed, later on, by a `}`. */
  lemma JsonSliceExists(t: string)
    ensures JsonSlice(t).Some? <==> exists i, j :: 0 <= i < j < |t| && t[i] == '{' && t[j] == '}'
  {
    if exists i, j :: 0 <= i < j < |t| && t[i] == '{' && t[j] == '}' {
      var i, j :| 0 <= i < j < |t| && t[i] == '{' && t[j] == '}';
      assert '{' in t;
      var first := IndexOf(t, '{');
      IndexOfFirst(t, '{');
      assert t[first + 1..][j - first - 1] == '}';
    }
    if JsonSlice(t).Some? {
      var first := IndexOf(t, '{');
      var last := LastIndexOf(t, '}');
      assert t[first] == '{' && t[last] == '}';
    }
  }

  /** The slice is a stretch of the text with no `{` before it and no `}`
      after it. */
  lemma JsonSliceBounds(t: string)
    requires JsonSlice(t).Some?
    ensures exists i :: (0 <= i && i + |JsonSlice(t).value| <= |t|
      && t[i..i + |JsonSlice(t).value|] == JsonSlice(t).value
      && '{' !in t[..i] && '}' !in t[i + |JsonSlice(t).value|..])
  {
    var i := IndexOf(t, '{');
    var j := LastIndexOf(t, '}');
    assert t[i..i + |JsonSlice(t).value|] == JsonSlice(t).value;
  }

  /** A text that is itself a braced object is its own slice. */
  lemma JsonSliceWhole(t: string)
    requires |t| >= 2 && t[0] == '{' && t[|t| - 1] == '}'
    ensures JsonSlice(t) == Some(t)
  {
    assert IndexOf(t, '{') == 0;
    assert t[1..][|t| - 2] == '}';
    assert LastIndexOf(t, '}') == |t| - 1;
    assert t[0..|t|] == t;
  }

  /** `aiText.substring(0, 500) + (aiText.length > 500 ? "..." : "")`. */
  function FallbackSummary(aiText: string): (summary: string)
    ensures |aiText| <= 500 ==> summary == aiText
    ensures |aiText| > 500 ==>
      |summary| == 503 && summary[..500] == aiText[..500] && EndsWith(summary, "...")
  {
    if |aiText| > 500 then aiText[..500] + "..." else aiText
  }

  /** What the reply of the model turns into: the JSON slice when it
      parses, otherwise the fallback summary of the raw reply
      (lines 234-287). Whether a slice parses is a parameter. */
  datatype Analysis = Parsed(json: string) | Fallback(summary: string)

  function ReadAnalysis(aiText: string, parses: string -> bool): (a: Analysis)
    ensures a.Parsed? <==> JsonSlice(Unfenced(aiText)).Some? && parses(JsonSlice(Unfenced(aiText)).value)
    ensures a.Parsed? ==> a.json == JsonSlice(Unfenced(aiText)).value
    ensures a.Fallback? ==> a.summary == FallbackSummary(aiText)
  {
    match JsonSlice(Unfenced(aiText))
    case Some(json) => if parses(json) then Parsed(json) else Fallback(FallbackSummary(aiText))
    case None => Fallback(FallbackSummary(aiText))
  }

  /** A JSON object the model sends inside a `json` code fence is read
      back as it was sent. */
  lemma FencedObjectRead(json: string, parses: string -> bool)
    requires |json| >= 2 && json[0] == '{' && json[|json| - 1] == '}'
    requires parses(json)
    ensures ReadAnalysis("```json\n" + json + "\n```", parses) == Parsed(json)
  {
    assert Trim(json) == json;
    assert !StartsWith(json, "```");
    UnfenceJsonFence(json);
    JsonSliceWhole(json);
  }

  // ------------------------------------------------------------------- diagram

  const BoneResearchDiagram := Diagram("flowchart", "Bone Research Process",
    ["Microgravity Exposure", "Bone Density Measurement", "Cellular Analysis", "Intervention Testing", "Clinical Outcomes"],
    [("Microgravity Exposure", "Bone Density Measurement"),
     ("Bone Density Measurement", "Cellular Analysis"),
     ("Cellular Analysis", "Intervention Testing"),
     ("Intervention Testing", "Clinical Outcomes")],
    Some("Bone loss research methodology and outcomes"))

  const RadiationStudyDiagram := Diagram("flowchart", "Radiation Effects Study",
    ["Radiation Exposure", "DNA Damage Assessment", "Repair Mechanisms", "Long-term Effects", "Protection Strategies"],
    [("Radiation Exposure", "DNA Damage Assessment"),
     ("DNA Damage Assessment", "Repair Mechanisms"),
     ("Repair Mechanisms", "Long-term Effects"),
     ("Long-term Effects", "Protection Strategies")],
    Some("Radiation biology research workflow"))

  const SpaceBiologyDiagram := Diagram("flowchart", "Space Biology Research",
    ["Research Question", "Experimental Design", "Data Collection", "Analysis", "Conclusions"],
    [("Research Question", "Experimental Design"),
     ("Experimental Design", "Data Collection"),
     ("Data Collection", "Analysis"),
     ("Analysis", "Conclusions")],
    Some("General space biology research process"))

  lemma BoneResearchIsChain()
    ensures BoneResearchDiagram.connections == Chain(BoneResearchDiagram.nodes)
  {
  }

  lemma RadiationStudyIsChain()
    ensures RadiationStudyDiagram.connections == Chain(RadiationStudyDiagram.nodes)
  {
  }

  lemma SpaceBiologyIsChain()
    ensures SpaceBiologyDiagram.connections == Chain(SpaceBiologyDiagram.nodes)
  {
  }

  /** `generateDiagram(title, analysisData)`: bone or osteo before
      radiation before the generic process; every variant is a chain of
      five steps. */
  function GenerateDiagram<A>(title: string, analysisData: A): (d: Diagram)
    ensures |d.nodes| == 5 && d.connections == Chain(d.nodes) && |d.connections| == 4
    ensures EndpointsAreNodes(d)
    ensures d.kind == "flowchart" && d.description.Some?
    ensures Contains(Lower(title), "bone") || Contains(Lower(title), "osteo") ==>
      d == BoneResearchDiagram && d.title == "Bone Research Process"
    ensures !Contains(Lower(title), "bone") && !Contains(Lower(title), "osteo") && Contains(Lower(title), "radiation") ==>
      d == RadiationStudyDiagram && d.title == "Radiation Effects Study"
    ensures !Contains(Lower(title), "bone") && !Contains(Lower(title), "osteo") && !Contains(Lower(title), "radiation") ==>
      d == SpaceBiologyDiagram && d.title == "Space Biology Research"
  {
    var titleLower := Lower(title);
    BoneResearchIsChain();
    RadiationStudyIsChain();
    SpaceBiologyIsChain();
    ChainEndpoints(BoneResearchDiagram);
    ChainEndpoints(RadiationStudyDiagram);
    ChainEndpoints(SpaceBiologyDiagram);
    if Contains(titleLower, "bone") || Contains(titleLower, "osteo") then BoneResearchDiagram
    else if Contains(titleLower, "radiation") then RadiationStudyDiagram
    else SpaceBiologyDiagram
  }

  /** The analysis the model returned plays no part in the diagram. */
  lemma DiagramIgnoresAnalysis<A>(title: string, data1: A, data2: A)
    ensures GenerateDiagram(title, data1) == GenerateDiagram(title, data2)
  {
  }
}
