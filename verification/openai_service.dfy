/** The pure parts of the LLM client: the request context with the system
    prompt in front, the reply taken from a completion (with its fallback
    for an empty answer), and the user-facing text for a failed call. */
module OpenAIService {
  import opened Types

  /** The reply for an error whose text mentions a rate limit. */
  const RateLimitReply: string := "⏳ Слишком много запросов. Пожалуйста, подождите немного."
  /** The reply for an error whose text mentions authentication or an API key. */
  const AuthReply: string := "🔑 Ошибка авторизации. Проверьте настройки API ключа."
  /** The reply for any other error. */
  const GenericReply: string := "⚠️ Произошла ошибка. Попробуйте снова. Если проблема повторится, обратитесь к администратору."
  /** The reply when the completion carries no text. */
  const EmptyReplyFallback: string := "Извините, я не смог сгенерировать ответ. Попробуйте еще раз."

  // ---------------------------------------------------------------------
  // Lower-casing and substring search

  /** `str.lower` on one character, restricted to ASCII letters. */
  function LowerChar(c: char): (r: char)
    ensures !('A' <= r <= 'Z')
  {
    if 'A' <= c <= 'Z' then (c as int - 'A' as int + 'a' as int) as char else c
  }

  /** `str.lower`, character by character. */
  function Lower(s: string): (r: string) {
    if s == [] then [] else [LowerChar(s[0])] + Lower(s[1..])
  }

  /** Lower-casing keeps the length and maps each character on its own. */
  lemma {:induction false} LowerPointwise(s: string)
    ensures |Lower(s)| == |s|
    ensures forall i :: 0 <= i < |s| ==> Lower(s)[i] == LowerChar(s[i])
  {
    if s != [] {
      LowerPointwise(s[1..]);
      forall i | 0 <= i < |s| ensures Lower(s)[i] == LowerChar(s[i]) {
        if i > 0 {
          assert Lower(s)[i] == Lower(s[1..])[i - 1];
        }
      }
    }
  }

  /** A lower-cased text has no upper-case ASCII letter left. */
  lemma NoUpperLeft(s: string)
    ensures forall i :: 0 <= i < |Lower(s)| ==> !('A' <= Lower(s)[i] <= 'Z')
  {
    LowerPointwise(s);
  }

  /** Lower-casing twice is lower-casing once. */
  lemma {:induction false} LowerIdempotent(s: string)
    ensures Lower(Lower(s)) == Lower(s)
  {
    if s != [] {
      LowerIdempotent(s[1..]);
      assert Lower(s)[1..] == Lower(s[1..]);
    }
  }

  /** Two texts that differ only in the case of ASCII letters. */
  predicate SameUpToCase(a: string, b: string) {
    |a| == |b| && forall i :: 0 <= i < |a| ==> LowerChar(a[i]) == LowerChar(b[i])
  }

  /** Texts that differ only in ASCII case lower-case to the same text. */
  lemma {:induction false} SameUpToCaseLower(a: string, b: string)
    requires SameUpToCase(a, b)
    ensures Lower(a) == Lower(b)
  {
    if a != [] {
      assert SameUpToCase(a[1..], b[1..]) by {
        forall i | 0 <= i < |a| - 1 ensures LowerChar(a[1..][i]) == LowerChar(b[1..][i]) {
          assert a[1..][i] == a[i + 1] && b[1..][i] == b[i + 1];
        }
      }
      SameUpToCaseLower(a[1..], b[1..]);
    }
  }

  /** `needle in hay` for strings: some position of `hay` starts a copy of
      `needle`, searched front to back. */
  predicate Contains(hay: string, needle: string) {
    needle <= hay || (hay != [] && Contains(hay[1..], needle))
  }

  /** `needle` occurs in `hay` starting at index `i`. */
  predicate OccursAt(hay: string, needle: string, i: int) {
    0 <= i <= |hay| - |needle| && hay[i..i + |needle|] == needle
  }

  /** A prefix is an occurrence at index 0. */
  lemma PrefixOccurs(hay: string, needle: string)
    ensures needle <= hay <==> OccursAt(hay, needle, 0)
  {
  }

  /** An occurrence past the first character is an occurrence in the rest. */
  lemma ShiftOccurs(hay: string, needle: string, i: int)
    requires hay != [] && i > 0
    ensures OccursAt(hay, needle, i) <==> OccursAt(hay[1..], needle, i - 1)
  {
    if 0 < i <= |hay| - |needle| {
      assert hay[1..][i - 1..i - 1 + |needle|] == hay[i..i + |needle|];
    }
  }

  /** Contains means an occurrence at some index. */
  lemma {:induction false} ContainsIff(hay: string, needle: string)
    ensures Contains(hay, needle) <==> exists i :: OccursAt(hay, needle, i)
  {
    PrefixOccurs(hay, needle);
    if hay == [] {
      if exists i :: OccursAt(hay, needle, i) {
        var i :| OccursAt(hay, needle, i);
        assert i == 0;
      }
    } else {
      ContainsIff(hay[1..], needle);
      if Contains(hay[1..], needle) {
        var i :| OccursAt(hay[1..], needle, i);
        ShiftOccurs(hay, needle, i + 1);
      }
      if exists i :: OccursAt(hay, needle, i) {
        var i :| OccursAt(hay, needle, i);
        if i > 0 {
          ShiftOccurs(hay, needle, i);
        }
      }
    }
  }

  // ---------------------------------------------------------------------
  // _get_error_message

  /** The user-facing text for a failed call, chosen from the error's
      lower-cased text: a rate limit first, then authentication or an API
      key, else the generic text. */
  function ErrorMessage(errorText: string): (r: string)
    ensures r == RateLimitReply <==> Contains(Lower(errorText), "rate limit")
    ensures r == AuthReply <==>
              !Contains(Lower(errorText), "rate limit")
              && (Contains(Lower(errorText), "authentication") || Contains(Lower(errorText), "api key"))
    ensures r == GenericReply <==>
              !Contains(Lower(errorText), "rate limit")
              && !Contains(Lower(errorText), "authentication") && !Contains(Lower(errorText), "api key")
    ensures r != []
  {
    RepliesDistinct();
    var text := Lower(errorText);
    if Contains(text, "rate limit") then RateLimitReply
    else if Contains(text, "authentication") || Contains(text, "api key") then AuthReply
    else GenericReply
  }

  /** The three error replies are three different texts. */
  lemma RepliesDistinct()
    ensures RateLimitReply != AuthReply && AuthReply != GenericReply && RateLimitReply != GenericReply
  {
    assert |RateLimitReply| == 56 && |AuthReply| == 52 && |GenericReply| == 93;
  }

  /** The classification ignores ASCII case. */
  lemma ErrorMessageIgnoresCase(a: string, b: string)
    requires SameUpToCase(a, b)
    ensures ErrorMessage(a) == ErrorMessage(b)
  {
    SameUpToCaseLower(a, b);
  }

  /** Classifying an already lower-cased text gives the same reply. */
  lemma ErrorMessageOfLowered(errorText: string)
    ensures ErrorMessage(Lower(errorText)) == ErrorMessage(errorText)
  {
    LowerIdempotent(errorText);
  }

  /** Lower-casing a concatenation lower-cases each part. */
  lemma {:induction false} LowerAppend(a: string, b: string)
    ensures Lower(a + b) == Lower(a) + Lower(b)
  {
    if a != [] {
      assert (a + b)[1..] == a[1..] + b;
      LowerAppend(a[1..], b);
    } else {
      assert a + b == b;
    }
  }

  /** Wherever the words "rate limit" appear in the error text, in whatever
      ASCII case, the rate-limit reply is chosen, whatever else the text says. */
  lemma MentionedRateLimitWins(before: string, words: string, after: string)
    requires Lower(words) == "rate limit"
    ensures ErrorMessage(before + words + after) == RateLimitReply
  {
    LowerAppend(before + words, after);
    LowerAppend(before, words);
    LowerPointwise(before);
    var text := Lower(before) + "rate limit" + Lower(after);
    assert text[|before|..|before| + 10] == "rate limit";
    assert OccursAt(text, "rate limit", |before|);
    ContainsIff(text, "rate limit");
  }

  // ---------------------------------------------------------------------
  // generate_response

  /** The request context: the system prompt as the first turn, then the
      caller's turns. */
  function FullContext(systemPrompt: string, messages: seq<Turn>): (ctx: seq<Turn>) {
    [Turn("system", systemPrompt)] + messages
  }

  /** The context is one turn longer, opens with the system prompt, and
      carries the caller's turns unchanged and in order after it. */
  lemma FullContextShape(systemPrompt: string, messages: seq<Turn>)
    ensures |FullContext(systemPrompt, messages)| == |messages| + 1
    ensures FullContext(systemPrompt, messages)[0] == Turn("system", systemPrompt)
    ensures FullContext(systemPrompt, messages)[1..] == messages
  {
  }

  /** One choice of a completion; its message content may be absent. */
  datatype Choice = Choice(content: Option<string>)

  /** A completion as the client library returns it. */
  datatype Completion = Completion(choices: seq<Choice>)

  /** What the API call produced: a completion, or an exception with its text. */
  datatype CallOutcome = Answered(completion: Completion) | Failed(errorText: string)

  /** The completion carries a non-empty first answer. */
  predicate HasAnswer(c: Completion) {
    c.choices != [] && c.choices[0].content.Some? && c.choices[0].content.value != []
  }

  /** The reply text of a completion: its first choice's content, or the
      fallback when there is no choice or the content is missing or empty. */
  function ReplyText(c: Completion): (r: string)
    ensures HasAnswer(c) ==> r == c.choices[0].content.value
    ensures !HasAnswer(c) ==> r == EmptyReplyFallback
    ensures r != []
  {
    if c.choices == [] || c.choices[0].content.None? || c.choices[0].content.value == [] then EmptyReplyFallback
    else c.choices[0].content.value
  }

  /** generate_response, given the outcome the API produces for the context
      it is sent: never an empty reply; a failure becomes its error reply. */
  function GenerateResponse(systemPrompt: string, messages: seq<Turn>, api: seq<Turn> -> CallOutcome): (r: string)
    ensures r != []
    ensures api(FullContext(systemPrompt, messages)).Failed? ==>
              r == ErrorMessage(api(FullContext(systemPrompt, messages)).errorText)
    ensures api(FullContext(systemPrompt, messages)).Answered? ==>
              r == ReplyText(api(FullContext(systemPrompt, messages)).completion)
  {
    match api(FullContext(systemPrompt, messages))
    case Answered(c) => ReplyText(c)
    case Failed(e) => ErrorMessage(e)
  }

  /** A reply is the model's own answer, the fallback, or one of the three
      error texts. */
  lemma ReplyIsKnownOrAnswer(systemPrompt: string, messages: seq<Turn>, api: seq<Turn> -> CallOutcome)
    ensures var r := GenerateResponse(systemPrompt, messages, api);
            r in {EmptyReplyFallback, RateLimitReply, AuthReply, GenericReply}
            || (api(FullContext(systemPrompt, messages)).Answered?
                && HasAnswer(api(FullContext(systemPrompt, messages)).completion)
                && r == api(FullContext(systemPrompt, messages)).completion.choices[0].content.value)
  {
  }
}
