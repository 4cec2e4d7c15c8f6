/** The text handling of the Phi-3 Discord bot's `blocking_generate_response`:
    the question is wrapped in a Q/A prompt, the opaque tokenizer + model +
    decoder pipeline turns the prompt into text (or fails), and the answer
    is cut out of that text after the marker "A:". */
module Phi3Bot {
  import opened PyStr

  /** The marker that introduces the answer, both in the prompt and in the
      decoded output. */
  const Marker: string := "A:"

  /** What the user sees when any step of the generation fails. */
  const Fallback: string := "There was an error generating the response."

  /** The outcome of tokenising the prompt, generating and decoding: the
      decoded text, or an exception somewhere along the way. */
  datatype Decoded = Decoded(text: string) | Failed

  // ---------------------------------------------------------------------
  // The prompt template

  /** `f"Q: {question}\nA:"`. */
  function FormatPrompt(question: string): (p: string)
    ensures |p| == |question| + 6
    ensures p[..3] == "Q: " && p[|p| - 3..] == "\nA:"
    ensures p[3..|p| - 3] == question
  {
    "Q: " + question + "\nA:"
  }

  /** Reads the question back out of a prompt of the template's shape. */
  function QuestionOf(p: string): (q: Option<string>)
    ensures q.Some? <==> |p| >= 6 && p[..3] == "Q: " && p[|p| - 3..] == "\nA:"
  {
    if |p| >= 6 && p[..3] == "Q: " && p[|p| - 3..] == "\nA:" then Some(p[3..|p| - 3]) else None
  }

  /** The template keeps the question unaltered: it can be read back ... */
  lemma PromptRoundTrip(question: string)
    ensures QuestionOf(FormatPrompt(question)) == Some(question)
  {
  }

  /** ... and a prompt is determined by the question read back from it. */
  lemma PromptDetermined(p: string, question: string)
    requires QuestionOf(p) == Some(question)
    ensures FormatPrompt(question) == p
  {
    assert p == p[..3] + p[3..|p| - 3] + p[|p| - 3..];
  }

  // ---------------------------------------------------------------------
  // Answer extraction

  /** `OccursAt` for the two-character marker, character by character. */
  lemma MarkerAt(s: string, j: int)
    ensures OccursAt(s, Marker, j) <==> 0 <= j && j + 2 <= |s| && s[j] == 'A' && s[j + 1] == ':'
  {
    if 0 <= j && j + 2 <= |s| {
      assert s[j..j + 2] == [s[j], s[j + 1]];
    }
  }

  /** A string without a colon has no marker in it. */
  lemma NoColonNoMarker(s: string)
    requires forall i :: 0 <= i < |s| ==> s[i] != ':'
    ensures !Contains(s, Marker)
  {
    forall j | 0 <= j <= |s| - |Marker|
      ensures !OccursAt(s, Marker, j)
    {
      MarkerAt(s, j);
    }
  }

  /** Stripping cannot create an occurrence of a pattern. */
  lemma StripKeepsAbsent(s: string, pat: string)
    requires !Contains(s, pat)
    ensures !Contains(Strip(s), pat)
  {
    var a, b := StripSplits(s, Whitespace);
    PieceLacks(a, Strip(s), b, pat);
  }

  /** Lines 54-57: if the decoded text holds the marker, the answer is the
      second piece of splitting it at the marker, stripped; otherwise the
      whole text stripped. Either way the answer neither begins nor ends
      with whitespace and holds no marker. */
  function Extract(response: string): (r: string)
    ensures Trimmed(r)
    ensures !Contains(r, Marker)
  {
    if Contains(response, Marker) then
      var piece := Split(response, Marker)[1];
      SplitPiecesLack(response, Marker);
      StripKeepsAbsent(piece, Marker);
      Strip(piece)
    else
      StripKeepsAbsent(response, Marker);
      Strip(response)
  }

  /** Without a marker, the answer is the decoded text less the whitespace
      around it, and nothing else is removed. */
  lemma ExtractWithoutMarker(response: string) returns (a: string, b: string)
    requires !Contains(response, Marker)
    ensures response == a + Extract(response) + b
    ensures AllSpace(a) && AllSpace(b)
  {
    a, b := StripSplits(response, Whitespace);
  }

  /** A text without a marker and without whitespace at either end is its
      own answer. */
  lemma ExtractTrimmedNoMarker(response: string)
    requires !Contains(response, Marker) && Trimmed(response)
    ensures Extract(response) == response
  {
    StripUnique([], response, [], Whitespace);
    assert [] + response + [] == response;
  }

  /** With a marker first found at `k`, the answer is the stripped text from
      just after it up to the next marker `e`, or to the end of the text if
      there is no other: a later marker cuts the answer short. */
  lemma ExtractWithMarker(response: string, k: nat, e: nat)
    requires OccursAt(response, Marker, k)
    requires forall j :: 0 <= j < k ==> !OccursAt(response, Marker, j)
    requires k + 2 <= e <= |response|
    requires e == |response| || OccursAt(response, Marker, e)
    requires forall j :: k + 2 <= j < e ==> !OccursAt(response, Marker, j)
    ensures Extract(response) == Strip(response[k + 2..e])
  {
    SplitSecond(response, Marker, k, e);
  }

  /** Every text holding the marker meets the hypotheses of
      `ExtractWithMarker`: `k` is its first marker and `e` the next marker
      after it, or the end of the text. */
  lemma MarkerSpan(response: string) returns (k: nat, e: nat)
    requires Contains(response, Marker)
    ensures OccursAt(response, Marker, k)
    ensures forall j :: 0 <= j < k ==> !OccursAt(response, Marker, j)
    ensures k + 2 <= e <= |response|
    ensures e == |response| || OccursAt(response, Marker, e)
    ensures forall j :: k + 2 <= j < e ==> !OccursAt(response, Marker, j)
    ensures Extract(response) == Strip(response[k + 2..e])
  {
    k := Find(response, Marker).value;
    e := NextOrEnd(response, Marker, k + 2);
    ExtractWithMarker(response, k, e);
  }

  /** Extracting from an answer gives the answer back. */
  lemma ExtractIdempotent(response: string)
    ensures Extract(Extract(response)) == Extract(response)
  {
    var r := Extract(response);
    StripUnique([], r, [], Whitespace);
    assert [] + r + [] == r;
  }

  // ---------------------------------------------------------------------
  // Decoded text that starts with the prompt

  /** In the prompt followed by anything, the first marker is the template's
      own, provided the question holds none. */
  lemma PromptMarkerFirst(question: string, cont: string)
    requires !Contains(question, Marker)
    ensures OccursAt(FormatPrompt(question) + cont, Marker, |question| + 4)
    ensures forall j :: 0 <= j < |question| + 4 ==> !OccursAt(FormatPrompt(question) + cont, Marker, j)
  {
    var s := FormatPrompt(question) + cont;
    var n := |question|;
    assert s[n + 4] == 'A' && s[n + 5] == ':';
    MarkerAt(s, n + 4);
    forall j | 0 <= j < n + 4
      ensures !OccursAt(s, Marker, j)
    {
      MarkerAt(s, j);
      if 3 <= j && j + 1 < n + 3 {
        MarkerAt(question, j - 3);
        assert s[j] == question[j - 3] && s[j + 1] == question[j - 2];
      }
    }
  }

  /** When the decoded text's first marker is at `k`, the answer is the part
      of the rest of the text, after that marker, that comes before the next
      marker, stripped. */
  lemma AnswerAfterFirstMarker(response: string, k: nat)
    requires OccursAt(response, Marker, k)
    requires forall j :: 0 <= j < k ==> !OccursAt(response, Marker, j)
    ensures Extract(response) == Strip(Split(response[k + 2..], Marker)[0])
  {
    FindFirst(response, Marker, k);
    assert Split(response, Marker)[1] == Split(response[k + 2..], Marker)[0];
  }

  /** The decoded output of a causal language model usually begins with the
      prompt it was given, though decoding need not reproduce it. When it
      does, and the question holds no marker, the answer is the generated
      continuation up to its own first marker, stripped. */
  lemma EchoedPrompt(question: string, cont: string)
    requires !Contains(question, Marker)
    ensures Extract(FormatPrompt(question) + cont) == Strip(Split(cont, Marker)[0])
  {
    var p := FormatPrompt(question);
    var k := |question| + 4;
    PromptMarkerFirst(question, cont);
    SliceAfter(p, cont, 0);
    assert |p| == k + 2;
    AnswerAfterFirstMarker(p + cont, k);
  }

  /** Inside the question part of an echoed prompt, a marker at `j` is a
      marker of the question at `j - 3`. */
  lemma PromptMarkerShift(question: string, cont: string, j: int)
    requires 3 <= j && j + 1 < |question| + 3
    ensures OccursAt(FormatPrompt(question) + cont, Marker, j) <==> OccursAt(question, Marker, j - 3)
  {
    var s := FormatPrompt(question) + cont;
    MarkerAt(s, j);
    MarkerAt(question, j - 3);
    assert s[j] == question[j - 3] && s[j + 1] == question[j - 2];
  }

  /** In an echoed prompt, the question's first marker, shifted past `Q: `,
      is the first marker of the whole text. */
  lemma EchoFirstMarker(question: string, cont: string, k: nat)
    requires OccursAt(question, Marker, k)
    requires forall j :: 0 <= j < k ==> !OccursAt(question, Marker, j)
    ensures OccursAt(FormatPrompt(question) + cont, Marker, k + 3)
    ensures forall j :: 0 <= j < k + 3 ==> !OccursAt(FormatPrompt(question) + cont, Marker, j)
  {
    var s := FormatPrompt(question) + cont;
    PromptMarkerShift(question, cont, k + 3);
    forall j | 0 <= j < k + 3
      ensures !OccursAt(s, Marker, j)
    {
      if 3 <= j {
        PromptMarkerShift(question, cont, j);
      } else {
        MarkerAt(s, j);
        assert s[..3] == "Q: ";
        assert s[j] == "Q: "[j];
      }
    }
  }

  /** In an echoed prompt, the question's next marker `e`, shifted past
      `Q: `, is the next marker of the whole text. */
  lemma EchoNextMarker(question: string, cont: string, k: nat, e: nat)
    requires k + 2 <= e < |question| && OccursAt(question, Marker, e)
    requires forall j :: k + 2 <= j < e ==> !OccursAt(question, Marker, j)
    ensures OccursAt(FormatPrompt(question) + cont, Marker, e + 3)
    ensures forall j :: k + 5 <= j < e + 3 ==> !OccursAt(FormatPrompt(question) + cont, Marker, j)
  {
    PromptMarkerShift(question, cont, e + 3);
    forall j | k + 5 <= j < e + 3
      ensures !OccursAt(FormatPrompt(question) + cont, Marker, j)
    {
      PromptMarkerShift(question, cont, j);
    }
  }

  /** In an echoed prompt whose question has no marker after `k + 2`, the
      template's own marker is the next one. */
  lemma EchoTemplateMarker(question: string, cont: string, k: nat)
    requires k + 2 <= |question|
    requires forall j :: k + 2 <= j < |question| ==> !OccursAt(question, Marker, j)
    ensures OccursAt(FormatPrompt(question) + cont, Marker, |question| + 4)
    ensures forall j :: k + 5 <= j < |question| + 4 ==> !OccursAt(FormatPrompt(question) + cont, Marker, j)
  {
    var s := FormatPrompt(question) + cont;
    var n := |question|;
    assert s[n + 3] == '\n' && s[n + 4] == 'A' && s[n + 5] == ':';
    MarkerAt(s, n + 4);
    forall j | k + 5 <= j < n + 4
      ensures !OccursAt(s, Marker, j)
    {
      if j + 1 < n + 3 {
        PromptMarkerShift(question, cont, j);
      } else {
        MarkerAt(s, j);
      }
    }
  }

  /** A slice of the question part of an echoed prompt is the same slice
      of the question, shifted past `Q: `. */
  lemma EchoSlice(question: string, cont: string, i: nat, j: nat)
    requires i <= j <= |question|
    ensures (FormatPrompt(question) + cont)[i + 3..j + 3] == question[i..j]
  {
  }

  /** Up to the template's marker, the question's tail in an echoed prompt
      is followed by the template's newline. */
  lemma EchoTail(question: string, cont: string, i: nat)
    requires i <= |question|
    ensures (FormatPrompt(question) + cont)[i + 3..|question| + 4] == question[i..] + "\n"
  {
  }

  /** When the decoded output begins with the prompt and the question holds
      the marker, the answer is what `Extract` takes from the question alone,
      whatever continuation follows: the question's own marker comes first,
      and the template's marker ends the answer if the question has no second one. */
  lemma EchoedQuestionWithMarker(question: string, cont: string)
    requires Contains(question, Marker)
    ensures Extract(FormatPrompt(question) + cont) == Extract(question)
  {
    var k, e := MarkerSpan(question);
    EchoedSpan(question, cont, k, e);
  }

  /** The answer of an echoed prompt is the question's own span between its
      first marker `k` and its next marker or end `e`, stripped. */
  lemma EchoedSpan(question: string, cont: string, k: nat, e: nat)
    requires OccursAt(question, Marker, k)
    requires forall j :: 0 <= j < k ==> !OccursAt(question, Marker, j)
    requires k + 2 <= e <= |question|
    requires e == |question| || OccursAt(question, Marker, e)
    requires forall j :: k + 2 <= j < e ==> !OccursAt(question, Marker, j)
    ensures Extract(FormatPrompt(question) + cont) == Strip(question[k + 2..e])
  {
    if e < |question| {
      EchoedInnerSpan(question, cont, k, e);
    } else {
      EchoedTemplateSpan(question, cont, k, e);
    }
  }

  /** `EchoedSpan` when the question holds a second marker `e`: the answer
      ends there, inside the question. */
  lemma EchoedInnerSpan(question: string, cont: string, k: nat, e: nat)
    requires OccursAt(question, Marker, k)
    requires forall j :: 0 <= j < k ==> !OccursAt(question, Marker, j)
    requires k + 2 <= e < |question| && OccursAt(question, Marker, e)
    requires forall j :: k + 2 <= j < e ==> !OccursAt(question, Marker, j)
    ensures Extract(FormatPrompt(question) + cont) == Strip(question[k + 2..e])
  {
    EchoFirstMarker(question, cont, k);
    EchoNextMarker(question, cont, k, e);
    EchoSlice(question, cont, k + 2, e);
    ShiftedSpan(FormatPrompt(question) + cont, k + 3, e + 3, question[k + 2..e]);
  }

  /** `EchoedSpan` when the question holds one marker only, so `e` is its
      end: the template's marker ends the answer, and the newline before it
      is stripped away. */
  lemma EchoedTemplateSpan(question: string, cont: string, k: nat, e: nat)
    requires OccursAt(question, Marker, k)
    requires forall j :: 0 <= j < k ==> !OccursAt(question, Marker, j)
    requires k + 2 <= e == |question|
    requires forall j :: k + 2 <= j < e ==> !OccursAt(question, Marker, j)
    ensures Extract(FormatPrompt(question) + cont) == Strip(question[k + 2..e])
  {
    var t := question[k + 2..e];
    EchoFirstMarker(question, cont, k);
    EchoTemplateMarker(question, cont, k);
    EchoTail(question, cont, k + 2);
    assert question[k + 2..] == t;
    ShiftedSpan(FormatPrompt(question) + cont, k + 3, e + 4, t + "\n");
    StripTrailingSpace(t, "\n");
  }

  /** `ExtractWithMarker` with the answer's raw text named `t`. */
  lemma ShiftedSpan(s: string, k: nat, e: nat, t: string)
    requires OccursAt(s, Marker, k)
    requires forall j :: 0 <= j < k ==> !OccursAt(s, Marker, j)
    requires k + 2 <= e <= |s|
    requires e == |s| || OccursAt(s, Marker, e)
    requires forall j :: k + 2 <= j < e ==> !OccursAt(s, Marker, j)
    requires s[k + 2..e] == t
    ensures Extract(s) == Strip(t)
  {
    ExtractWithMarker(s, k, e);
  }

  /** When the decoded output begins with the prompt, the question `A: x`
      gives the answer `x`, whatever continuation follows: the question's
      own marker comes first and the template's marker ends the answer. */
  lemma QuestionWithMarker(cont: string)
    ensures Extract(FormatPrompt("A: x") + cont) == "x"
  {
    var s := FormatPrompt("A: x") + cont;
    assert OccursAt(s, Marker, 3) && OccursAt(s, Marker, 8) by {
      assert s[..10] == "Q: A: x\nA:";
      MarkerAt(s, 3);
      MarkerAt(s, 8);
    }
    assert forall j :: 0 <= j < 3 || 5 <= j < 8 ==> !OccursAt(s, Marker, j) by {
      assert s[..10] == "Q: A: x\nA:";
      forall j | 0 <= j < 3 || 5 <= j < 8
        ensures !OccursAt(s, Marker, j)
      {
        MarkerAt(s, j);
      }
    }
    assert Strip(s[5..8]) == "x" by {
      assert s[..10] == "Q: A: x\nA:";
      assert s[5..8] == " " + "x" + "\n";
      StripUnique(" ", "x", "\n", Whitespace);
    }
    ExtractWithMarker(s, 3, 8);
  }

  /** A decoded text that repeats the prompt and then gives the answer `4`. */
  lemma ExampleAnswer()
    ensures Extract("Q: What is 2+2?\nA: 4") == "4"
  {
    var s := "Q: What is 2+2?\nA: 4";
    assert OccursAt(s, Marker, 16) by { MarkerAt(s, 16); }
    assert forall j :: 0 <= j < 16 || 18 <= j < 20 ==> !OccursAt(s, Marker, j) by {
      forall j | 0 <= j < 16 || 18 <= j < 20
        ensures !OccursAt(s, Marker, j)
      {
        MarkerAt(s, j);
      }
    }
    assert Strip(s[18..20]) == "4" by {
      assert s[18..20] == " " + "4" + "";
      StripUnique(" ", "4", "", Whitespace);
    }
    ExtractWithMarker(s, 16, 20);
  }

  /** The output `no marker present` comes back unchanged. */
  lemma ExampleNoMarker()
    ensures Extract("no marker present") == "no marker present"
  {
    NoColonNoMarker("no marker present");
    StripUnique("", "no marker present", "", Whitespace);
  }

  /** The answer is empty when nothing but whitespace follows the marker ... */
  lemma ExampleEmptyAfterPrompt()
    ensures Extract("Q: hi\nA:") == ""
  {
    var s := "Q: hi\nA:";
    MarkerAt(s, 6);
    forall j | 0 <= j < 6
      ensures !OccursAt(s, Marker, j)
    {
      MarkerAt(s, j);
    }
    ExtractWithMarker(s, 6, 8);
    assert s[8..8] == "";
    StripUnique("", "", "", Whitespace);
  }

  /** ... or when the marker is followed at once by another. */
  lemma ExampleEmptyBetweenMarkers()
    ensures Extract("A:A: x") == ""
  {
    MarkerAt("A:A: x", 0);
    MarkerAt("A:A: x", 2);
    ExtractWithMarker("A:A: x", 0, 2);
  }

  /** A second marker in the output cuts the answer short: the text after it
      is dropped, not kept as part of the answer. */
  lemma ExampleSecondMarkerTruncates()
    ensures Extract("Q: hi\nA: yes\nA: no") == "yes"
  {
    var s := "Q: hi\nA: yes\nA: no";
    assert OccursAt(s, Marker, 6) && OccursAt(s, Marker, 13) by {
      MarkerAt(s, 6);
      MarkerAt(s, 13);
    }
    assert forall j :: 0 <= j < 6 || 8 <= j < 13 ==> !OccursAt(s, Marker, j) by {
      forall j | 0 <= j < 6 || 8 <= j < 13
        ensures !OccursAt(s, Marker, j)
      {
        MarkerAt(s, j);
      }
    }
    assert Strip(s[8..13]) == "yes" by {
      assert s[8..13] == " " + "yes" + "\n";
      StripUnique(" ", "yes", "\n", Whitespace);
    }
    ExtractWithMarker(s, 6, 13);
  }

  // ---------------------------------------------------------------------
  // The fallback and the whole handler

  /** Lines 61-63: any failure becomes the fixed fallback text; otherwise the
      answer is extracted. Every reply is trimmed and holds no marker. */
  function Respond(d: Decoded): (r: string)
    ensures d.Failed? ==> r == Fallback
    ensures d.Decoded? ==> r == Extract(d.text)
    ensures Trimmed(r) && !Contains(r, Marker)
  {
    match d
    case Failed => FallbackShape(); Fallback
    case Decoded(text) => Extract(text)
  }

  lemma FallbackShape()
    ensures Trimmed(Fallback) && !Contains(Fallback, Marker)
  {
    NoColonNoMarker(Fallback);
  }

  /** `blocking_generate_response(question)`, with the tokenizer, model and
      decoder given as the opaque `pipeline` from prompt to outcome. */
  function GenerateResponse(question: string, pipeline: string -> Decoded): (r: string)
    ensures pipeline(FormatPrompt(question)).Failed? ==> r == Fallback
    ensures pipeline(FormatPrompt(question)).Decoded? ==> r == Extract(pipeline(FormatPrompt(question)).text)
    ensures Trimmed(r) && !Contains(r, Marker)
  {
    Respond(pipeline(FormatPrompt(question)))
  }

  /** End to end: when the pipeline echoes the prompt and appends `cont`,
      and the question holds no marker, the reply is `cont` up to its first
      marker, stripped. */
  lemma GenerateEchoed(question: string, pipeline: string -> Decoded, cont: string)
    requires pipeline(FormatPrompt(question)) == Decoded(FormatPrompt(question) + cont)
    requires !Contains(question, Marker)
    ensures GenerateResponse(question, pipeline) == Strip(Split(cont, Marker)[0])
  {
    EchoedPrompt(question, cont);
  }
}
