/**
 * The last step of `query_document` in both backends: strip a Markdown code
 * fence from the chat model's raw reply, hand the text to `json.loads`, and map
 * what goes wrong to the HTTP error the endpoint raises.
 *
 * backend/main.py (Gemini) triggers on "```json" and splits on "```json\n";
 * backend/local_llama.py (Ollama) triggers on any "json" and splits on "json\n".
 * Both then take element [1] of that split without checking the length, and
 * keep what precedes the first "```" in it.
 */
module FenceCleanup {
  import opened Wrappers
  import opened PyStr

  /** The two backend variants: main.py talks to Gemini, local_llama.py to Ollama. */
  datatype Backend = Gemini | Ollama

  /** The closing fence. */
  const Fence: string := "```"

  /** The opening fence a fenced reply starts with. */
  const OpeningFence: string := "```json\n"

  /** The substring whose presence makes the backend try to strip a fence. */
  function Trigger(b: Backend): string {
    match b
    case Gemini => "```json"
    case Ollama => "json"
  }

  /** The separator the backend splits the reply on. */
  function Separator(b: Backend): string {
    match b
    case Gemini => OpeningFence
    case Ollama => "json\n"
  }

  /** The only exception the cleanup itself raises: `split(...)[1]` on a
      one-element list. */
  datatype CleanError = IndexError

  /** `raw.split(sep)[1].split("```")[0]` when the trigger occurs, else `raw`
      unchanged. Fails exactly when the trigger occurs but the separator does
      not: the split then has no element [1]. */
  function Clean(b: Backend, raw: string): (r: Result<string, CleanError>)
    ensures r.Failure? <==> Contains(raw, Trigger(b)) && !Contains(raw, Separator(b))
    ensures !Contains(raw, Trigger(b)) ==> r == Success(raw)
  {
    if Contains(raw, Trigger(b)) then
      var parts := Split(raw, Separator(b));
      SplitHasSecondPieceIff(raw, Separator(b));
      if |parts| < 2 then Failure(IndexError)
      else Success(Split(parts[1], Fence)[0])
    else
      Success(raw)
  }

  /** Once the trigger occurs and the separator first occurs at `i`, the
      cleanup keeps the first piece, cut at "```", of the text after it. */
  lemma CleanAt(b: Backend, raw: string, i: nat)
    requires Contains(raw, Trigger(b))
    requires OccursAt(raw, Separator(b), i)
    requires forall j: nat :: j < i ==> !OccursAt(raw, Separator(b), j)
    ensures Clean(b, raw)
            == Success(Split(Split(raw[i + |Separator(b)|..], Separator(b))[0], Fence)[0])
  {
    SplitAtFirst(raw, Separator(b), i);
  }

  /** `r` sits at `start` in `raw` and ends at the end of `raw` or right
      before a "```" or a `sep`. */
  predicate SitsBeforeStop(raw: string, start: nat, r: string, sep: string) {
    && start + |r| <= |raw| && raw[start..start + |r|] == r
    && (|| start + |r| == |raw|
        || OccursAt(raw, Fence, start + |r|)
        || OccursAt(raw, sep, start + |r|))
  }

  /** `hi` is where the next `sep` starts in `text`, or the end of `text` when
      there is none. */
  predicate NextSeparatorAt(text: string, sep: string, hi: nat) {
    && hi <= |text|
    && (forall j: nat :: j < hi ==> !OccursAt(text, sep, j))
    && (hi == |text| || OccursAt(text, sep, hi))
  }

  /** `e` is where the first "```" lying wholly within `text[..hi]` starts, or
      `hi` when there is none. */
  predicate FirstFenceBefore(text: string, hi: nat, e: nat) {
    && e <= hi
    && (forall j: nat :: j + |Fence| <= hi && OccursAt(text, Fence, j) ==> e <= j)
    && (e == hi || (e + |Fence| <= hi && OccursAt(text, Fence, e)))
  }

  /** A triggered, successful cleanup returns the text that starts right after
      the first separator; it contains neither the separator nor "```", and it
      ends at the end of the reply or just before a "```" or a separator.
      Exactly: in the text after the first separator, the result runs up to
      the first "```" that lies wholly before the next separator, or up to
      that separator (or the end) when there is no such "```". */
  lemma CleanedTextFollowsSeparator(b: Backend, raw: string)
    requires Contains(raw, Trigger(b)) && Contains(raw, Separator(b))
    ensures Clean(b, raw).Success?
    ensures SitsBeforeStop(raw, Find(raw, Separator(b)).value + |Separator(b)|,
                           Clean(b, raw).value, Separator(b))
    ensures !Contains(Clean(b, raw).value, Fence)
    ensures !Contains(Clean(b, raw).value, Separator(b))
    ensures var after := raw[Find(raw, Separator(b)).value + |Separator(b)|..];
            var r := Clean(b, raw).value;
            && |r| <= |after| && after[..|r|] == r
            && exists hi: nat :: NextSeparatorAt(after, Separator(b), hi)
                                 && FirstFenceBefore(after, hi, |r|)
  {
    var sep := Separator(b);
    var i := Find(raw, sep).value;
    var after := raw[i + |sep|..];
    var r := Split(Split(after, sep)[0], Fence)[0];
    CleanAt(b, raw, i);
    assert Clean(b, raw) == Success(r);
    TwoCuts(after, sep);
    LiftFromSuffix(raw, i + |sep|, r, sep);
    TwoCutsStopAtFirst(after, sep);
  }

  /** The two cuts stop at the first "```" lying wholly before the next
      separator, or at that separator. */
  lemma TwoCutsStopAtFirst(after: string, sep: string)
    requires sep != []
    ensures var r := Split(Split(after, sep)[0], Fence)[0];
            && |r| <= |after| && after[..|r|] == r
            && exists hi: nat :: NextSeparatorAt(after, sep, hi) && FirstFenceBefore(after, hi, |r|)
  {
    var middle := Split(after, sep)[0];
    var r := Split(middle, Fence)[0];
    var hi := |middle|;
    match Find(after, sep) {
      case None =>
        SplitWithoutSeparator(after, sep);
      case Some(k) =>
        SplitAtFirst(after, sep, k);
    }
    assert middle == after[..hi];
    assert NextSeparatorAt(after, sep, hi);
    match Find(middle, Fence) {
      case None =>
        SplitWithoutSeparator(middle, Fence);
        forall j: nat | j + |Fence| <= hi
          ensures !OccursAt(after, Fence, j)
        {
          OccursInPrefix(after, Fence, j, hi);
        }
      case Some(f) =>
        SplitAtFirst(middle, Fence, f);
        OccursInPrefix(after, Fence, f, hi);
        forall j: nat | j + |Fence| <= hi && OccursAt(after, Fence, j)
          ensures f <= j
        {
          OccursInPrefix(after, Fence, j, hi);
        }
    }
    assert after[..|r|] == r;
    assert FirstFenceBefore(after, hi, |r|);
  }

  /** A stop found in `raw[start..]` is a stop in `raw`, `start` places on. */
  lemma LiftFromSuffix(raw: string, start: nat, r: string, sep: string)
    requires start <= |raw|
    requires SitsBeforeStop(raw[start..], 0, r, sep)
    ensures SitsBeforeStop(raw, start, r, sep)
  {
    assert raw[start..start + |r|] == raw[start..][0..|r|];
    if start + |r| < |raw| {
      if OccursAt(raw[start..], Fence, |r|) {
        OccursInSuffix(raw, Fence, start, |r|);
      } else {
        OccursInSuffix(raw, sep, start, |r|);
      }
    }
  }

  /** Cutting a text at its first `sep` and then at its first "```" leaves a
      prefix that avoids both and ends at the end or before one of them. */
  lemma TwoCuts(after: string, sep: string)
    requires sep != []
    ensures SitsBeforeStop(after, 0, Split(Split(after, sep)[0], Fence)[0], sep)
    ensures !Contains(Split(Split(after, sep)[0], Fence)[0], Fence)
    ensures !Contains(Split(Split(after, sep)[0], Fence)[0], sep)
  {
    var middle := Split(after, sep)[0];
    var r := Split(middle, Fence)[0];
    FirstPiece(after, sep);
    FirstPiece(middle, Fence);
    SplitPiecesAvoidSeparator(after, sep);
    SplitPiecesAvoidSeparator(middle, Fence);
    NoContainsInPrefix(middle, sep, |r|);
    assert middle[..|r|] == r;
    assert after[0..|r|] == r;
    if r != middle {
      OccursInPrefix(after, Fence, |r|, |middle|);
    }
  }

  /** The first piece of a split is a prefix that avoids the separator and
      either is the whole string or stops right before an occurrence of it. */
  lemma FirstPiece(x: string, sep: string)
    requires sep != []
    ensures var p := Split(x, sep)[0];
            && |p| <= |x| && x[..|p|] == p
            && (p == x || OccursAt(x, sep, |p|))
  {
  }

  /** A prefix of a string that avoids `sub` avoids it too. */
  lemma NoContainsInPrefix(x: string, sub: string, n: nat)
    requires n <= |x| && !Contains(x, sub)
    ensures !Contains(x[..n], sub)
  {
    forall j: nat
      ensures !OccursAt(x[..n], sub, j)
    {
      if j + |sub| <= n {
        OccursInPrefix(x, sub, j, n);
      }
    }
    ContainsIff(x[..n], sub);
  }

  /** Occurrences in a suffix are occurrences in the whole string, shifted. */
  lemma OccursInSuffix(x: string, sub: string, start: nat, j: nat)
    requires start <= |x|
    requires OccursAt(x[start..], sub, j)
    ensures OccursAt(x, sub, start + j)
  {
    assert x[start..][j..j + |sub|] == x[start + j..start + j + |sub|];
  }

  /** A separator placed after a text that avoids it is its leftmost
      occurrence, provided the separator's last character appears nowhere
      else in it (both separators end in their only newline). */
  lemma SeparatorFirstAt(pre: string, sep: string, rest: string)
    requires sep != [] && !Contains(pre, sep)
    requires forall k :: 0 <= k < |sep| - 1 ==> sep[k] != sep[|sep| - 1]
    ensures OccursAt(pre + sep + rest, sep, |pre|)
    ensures forall j: nat :: j < |pre| ==> !OccursAt(pre + sep + rest, sep, j)
  {
    var x := pre + sep + rest;
    assert x[|pre|..|pre| + |sep|] == sep;
    var n := |pre| + |sep| - 1;
    ContainsAppendWithoutLast(pre, sep[..|sep| - 1], sep);
    assert x[..n] == pre + sep[..|sep| - 1];
    forall j: nat | j < |pre|
      ensures !OccursAt(x, sep, j)
    {
      OccursInPrefix(x, sep, j, n);
    }
  }

  /** "```" placed after a text that has no "```" and does not end in a
      backtick is the leftmost "```". */
  lemma ClosingFenceFirst(s: string, m: string)
    requires !Contains(s, Fence) && (s == [] || s[|s| - 1] != '`')
    requires |s| + 3 <= |m| && m[..|s| + 3] == s + Fence
    ensures OccursAt(m, Fence, |s|)
    ensures forall j: nat :: j < |s| ==> !OccursAt(m, Fence, j)
  {
    assert m[|s|..|s| + 3] == m[..|s| + 3][|s|..];
    assert m[..|s|] == s;
    if s != [] {
      Blocked(m, Fence, |s| - 1);
    }
    forall j: nat | j < |s|
      ensures !OccursAt(m, Fence, j)
    {
      if j + 3 <= |s| {
        OccursInPrefix(m, Fence, j, |s|);
      }
    }
  }

  /** Cutting at the first "```" gives back a payload that has none. */
  lemma CutAtClosingFence(s: string, m: string)
    requires !Contains(s, Fence) && (s == [] || s[|s| - 1] != '`')
    requires |s| + 3 <= |m| && m[..|s| + 3] == s + Fence
    ensures Split(m, Fence)[0] == s
  {
    ClosingFenceFirst(s, m);
    SplitAtFirst(m, Fence, |s|);
    assert m[..|s|] == m[..|s| + 3][..|s|];
  }

  /** main.py round trip: a reply made of prose without an opening fence, the
      opening fence, a payload, and a closing fence not followed by another
      backtick, is cleaned to exactly the payload. The lemma assumes the payload
      has no "```" and does not end in a backtick; these conditions suffice but
      are not all needed (a trailing backtick is harmless when the text after
      the closing fence is cut off anyway). */
  lemma GeminiUnwrapsFence(pre: string, s: string, post: string)
    requires !Contains(pre, OpeningFence)
    requires !Contains(s, Fence) && (s == [] || s[|s| - 1] != '`')
    requires post == [] || post[0] != '`'
    ensures Clean(Gemini, pre + OpeningFence + s + Fence + post) == Success(s)
  {
    var rest := s + Fence + post;
    var raw := pre + OpeningFence + rest;
    assert raw == pre + OpeningFence + s + Fence + post;
    SeparatorFirstAt(pre, OpeningFence, rest);
    OccursPrefixOfSub(raw, OpeningFence, |pre|, 7);
    assert OpeningFence[..7] == Trigger(Gemini);
    ContainsIff(raw, Trigger(Gemini));
    CleanAt(Gemini, raw, |pre|);
    assert raw[|pre| + |OpeningFence|..] == rest;
    GeminiPayloadCut(s, post);
  }

  /** After the opening fence, main.py's two cuts stop exactly at the closing
      fence. */
  lemma GeminiPayloadCut(s: string, post: string)
    requires !Contains(s, Fence) && (s == [] || s[|s| - 1] != '`')
    requires post == [] || post[0] != '`'
    ensures Split(Split(s + Fence + post, OpeningFence)[0], Fence)[0] == s
  {
    var rest := s + Fence + post;
    assert rest[..|s| + 3] == s + Fence;
    match Find(rest, OpeningFence)
    case None =>
      SplitWithoutSeparator(rest, OpeningFence);
      CutAtClosingFence(s, rest);
    case Some(k) =>
      ClosingFenceFirst(s, rest);
      OccursPrefixOfSub(rest, OpeningFence, k, 3);
      assert OpeningFence[..3] == Fence;
      if post != [] {
        Blocked(rest, Fence, |s| + 3);
      }
      assert k == |s| || k >= |s| + 3;
      SplitAtFirst(rest, OpeningFence, k);
      if k == |s| {
        assert rest[..k] == s;
        SplitWithoutSeparator(s, Fence);
      } else {
        assert rest[..k][..|s| + 3] == s + Fence;
        CutAtClosingFence(s, rest[..k]);
      }
  }

  /** local_llama.py round trip: the same shape of reply is cleaned to the
      payload when the prose has no "json\n", the payload has neither
      "```" nor "json\n" and does not end in a backtick; here the text after
      the closing fence may be anything. */
  lemma OllamaUnwrapsFence(pre: string, s: string, post: string)
    requires !Contains(pre, Separator(Ollama))
    requires !Contains(s, Fence) && !Contains(s, Separator(Ollama))
    requires s == [] || s[|s| - 1] != '`'
    ensures Clean(Ollama, pre + OpeningFence + s + Fence + post) == Success(s)
  {
    var sep := Separator(Ollama);
    var rest := s + Fence + post;
    var lead := pre + Fence;
    var raw := lead + sep + rest;
    assert raw == pre + OpeningFence + s + Fence + post;
    ContainsAppendWithoutLast(pre, Fence, sep);
    SeparatorFirstAt(lead, sep, rest);
    OccursPrefixOfSub(raw, sep, |lead|, 4);
    assert sep[..4] == Trigger(Ollama);
    ContainsIff(raw, Trigger(Ollama));
    CleanAt(Ollama, raw, |lead|);
    assert raw[|lead| + |sep|..] == rest;
    OllamaPayloadCut(s, post);
  }

  /** After the opening fence, local_llama.py's two cuts stop exactly at the
      closing fence: no "json\n" can start before the fence has been passed. */
  lemma OllamaPayloadCut(s: string, post: string)
    requires !Contains(s, Fence) && !Contains(s, Separator(Ollama))
    requires s == [] || s[|s| - 1] != '`'
    ensures Split(Split(s + Fence + post, Separator(Ollama))[0], Fence)[0] == s
  {
    var sep := Separator(Ollama);
    var rest := s + Fence + post;
    assert rest[..|s|] == s;
    assert rest[..|s| + 3] == s + Fence;
    forall j: nat | j < |s| + 3
      ensures !OccursAt(rest, sep, j)
    {
      if j + |sep| <= |s| {
        OccursInPrefix(rest, sep, j, |s|);
      } else {
        var p := if j < |s| then |s| else j;
        Blocked(rest, sep, p);
      }
    }
    match Find(rest, sep)
    case None =>
      SplitWithoutSeparator(rest, sep);
      CutAtClosingFence(s, rest);
    case Some(k) =>
      SplitAtFirst(rest, sep, k);
      assert rest[..k][..|s| + 3] == s + Fence;
      CutAtClosingFence(s, rest[..k]);
  }

  /** A one-line reply that contains the trigger cannot contain the separator,
      which ends in a newline: both backends raise IndexError on it. */
  lemma SingleLineTriggeredRaises(b: Backend, raw: string)
    requires forall k :: 0 <= k < |raw| ==> raw[k] != '\n'
    requires Contains(raw, Trigger(b))
    ensures Clean(b, raw) == Failure(IndexError)
  {
    var sep := Separator(b);
    forall j: nat
      ensures !OccursAt(raw, sep, j)
    {
      if j + |sep| <= |raw| {
        assert raw[j..j + |sep|][|sep| - 1] == raw[j + |sep| - 1] != sep[|sep| - 1];
      }
    }
    ContainsIff(raw, sep);
  }

  /** local_llama.py misfires on bare JSON that mentions the word "json": a
      one-line reply such as {"format": "json"} raises IndexError there. */
  lemma OllamaRejectsBareJsonMentioningJson()
    ensures Clean(Ollama, BareReply) == Failure(IndexError)
  {
    assert BareReply[12..16] == "json";
    assert OccursAt(BareReply, Trigger(Ollama), 12);
    ContainsIff(BareReply, Trigger(Ollama));
    assert '\n' !in BareReply;
    assert forall k :: 0 <= k < |BareReply| ==> BareReply[k] in BareReply;
    SingleLineTriggeredRaises(Ollama, BareReply);
  }

  /** main.py hands any reply without a backtick, such as that one, to the
      parser unchanged. */
  lemma GeminiPassesReplyWithoutBacktick(raw: string)
    requires forall k :: 0 <= k < |raw| ==> raw[k] != '`'
    ensures Clean(Gemini, raw) == Success(raw)
  {
    forall j: nat
      ensures !OccursAt(raw, Trigger(Gemini), j)
    {
      if j + 7 <= |raw| {
        assert raw[j..j + 7][0] == raw[j] != '`';
      }
    }
    ContainsIff(raw, Trigger(Gemini));
  }

  /** Why `query_document` answers 500 once the model has replied. Both end up
      in the outer `except Exception`, which re-raises status 500 "Error during
      query"; only the second went through the JSONDecodeError handler. */
  datatype Cause =
    | IndexOutOfRange            // the IndexError of `split(...)[1]`
    | ParseRejected(text: string) // `json.loads` refused `text`, the cleaned reply

  /** The HTTPException that leaves the endpoint. */
  datatype HttpError = HttpError(status: nat, cause: Cause)

  /** Clean the reply, then parse it with `loads`, the `json.loads` oracle
      (None stands for JSONDecodeError). The reply shown in a parse error is the
      cleaned text, since `query_document` reassigns `raw_response` before parsing. */
  function ParseReply<J>(b: Backend, raw: string, loads: string -> Option<J>): (r: Result<J, HttpError>)
    ensures r.Failure? ==> r.error.status == 500
    ensures r == Failure(HttpError(500, IndexOutOfRange))
            <==> Contains(raw, Trigger(b)) && !Contains(raw, Separator(b))
    ensures r.Failure? && r.error.cause.ParseRejected? ==>
              Clean(b, raw) == Success(r.error.cause.text) && loads(r.error.cause.text).None?
    ensures r.Success? ==> Clean(b, raw).Success? && loads(Clean(b, raw).value) == Some(r.value)
  {
    match Clean(b, raw)
    case Failure(_) => Failure(HttpError(500, IndexOutOfRange))
    case Success(text) =>
      match loads(text)
      case Some(v) => Success(v)
      case None => Failure(HttpError(500, ParseRejected(text)))
  }

  /** main.py: a fenced reply is answered exactly like the bare payload. */
  lemma GeminiFencedParsesLikeBare<J>(pre: string, s: string, post: string, loads: string -> Option<J>)
    requires !Contains(pre, OpeningFence)
    requires !Contains(s, Fence) && (s == [] || s[|s| - 1] != '`')
    requires post == [] || post[0] != '`'
    ensures ParseReply(Gemini, pre + OpeningFence + s + Fence + post, loads)
            == ParseReply(Gemini, s, loads)
  {
    GeminiUnwrapsFence(pre, s, post);
    assert Trigger(Gemini)[..3] == Fence;
    AvoidsExtension(s, Trigger(Gemini), 3);
  }

  /** local_llama.py: the same holds for payloads without the word "json". */
  lemma OllamaFencedParsesLikeBare<J>(pre: string, s: string, post: string, loads: string -> Option<J>)
    requires !Contains(pre, Separator(Ollama))
    requires !Contains(s, Fence) && !Contains(s, Trigger(Ollama))
    requires s == [] || s[|s| - 1] != '`'
    ensures ParseReply(Ollama, pre + OpeningFence + s + Fence + post, loads)
            == ParseReply(Ollama, s, loads)
  {
    assert Separator(Ollama)[..4] == Trigger(Ollama);
    AvoidsExtension(s, Separator(Ollama), 4);
    OllamaUnwrapsFence(pre, s, post);
  }

  /** local_llama.py: a one-line payload that mentions "json" is answered
      differently bare and fenced. Bare, it raises IndexError and ends as a 500
      "Error during query"; fenced, it reaches `json.loads` unchanged. */
  lemma OllamaBareAndFencedDiffer<J>(s: string, loads: string -> Option<J>)
    requires Contains(s, Trigger(Ollama))
    requires forall k :: 0 <= k < |s| ==> s[k] != '\n'
    requires !Contains(s, Fence) && (s == [] || s[|s| - 1] != '`')
    ensures ParseReply(Ollama, s, loads) == Failure(HttpError(500, IndexOutOfRange))
    ensures ParseReply(Ollama, OpeningFence + s + Fence, loads)
            == match loads(s)
               case Some(v) => Success(v)
               case None => Failure(HttpError(500, ParseRejected(s)))
  {
    SingleLineTriggeredRaises(Ollama, s);
    assert !Contains([], Separator(Ollama));
    forall j: nat
      ensures !OccursAt(s, Separator(Ollama), j)
    {
      if j + 5 <= |s| {
        assert s[j..j + 5][4] == s[j + 4] != '\n';
      }
    }
    ContainsIff(s, Separator(Ollama));
    OllamaUnwrapsFence([], s, []);
    assert [] + OpeningFence + s + Fence + [] == OpeningFence + s + Fence;
  }

  /** A bare JSON reply that mentions the word "json" and has no newline. */
  const BareReply: string := "{\"format\": \"json\"}"
}
