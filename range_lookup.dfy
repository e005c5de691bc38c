/** The `GET /range/{hash}` handler: validate the prefix, upper-case it, fetch
    the object with that key, split its text into lines and append synthetic
    lines so that the size of the response hides the number of real lines.

    The object store, the random source and the logger are not
    called here: the store is a function from key to StoreResult, the two
    random primitives are functions passed in (see Padding), and the reply
    records the keys looked up and the number of warnings logged. */
module RangeLookup {
  import opened Text
  import opened Prefix
  import opened Padding

  /** What get_object gives for a key: the object's bytes, the NoSuchKey
      client error, or any other store error (by its code), which the
      handler does not catch. */
  datatype StoreResult = Found(body: seq<byte>) | NoSuchKey | OtherError(code: string)

  /** Errors the handler does not catch; the web framework turns them into a
      server error. */
  datatype Failure = StoreFailure(code: string) | AsciiDecodeFailure

  datatype Outcome = PlainText(text: string) | HttpError(status: nat) | Unhandled(failure: Failure)

  /** The outcome of one request, the store keys it looked up (in order) and
      the number of warnings it logged. */
  datatype Reply = Reply(outcome: Outcome, lookups: seq<string>, warnings: nat)

  const BadRequest := 400
  const NotFound := 404
  const LineBreak := '\n'

  /** A source of random.randint draws: randint(lo, hi) lies in [lo, hi]. */
  ghost predicate IsRandIntSource(randint: (int, int) -> int) {
    forall lo: int, hi: int :: lo <= hi ==> lo <= randint(lo, hi) <= hi
  }

  /** The real lines of a decoded object: text.strip().split("\n"). They
      join back to the stripped text, and there is always at least one. */
  function BodyLines(text: string): (lines: seq<string>)
    ensures |lines| >= 1 && Join(lines, LineBreak) == Strip(text)
    ensures forall i :: 0 <= i < |lines| ==> LineBreak !in lines[i]
  {
    JoinSplit(Strip(text), LineBreak);
    Split(Strip(text), LineBreak)
  }

  /** An object that is empty or all white space still has one real line,
      the empty one. */
  lemma BlankBodyIsOneLine(text: string)
    requires AllSpace(text)
    ensures BodyLines(text) == [""]
  {
  }

  /** The synthetic lines appended to n real lines. */
  function PaddingFor(n: nat, randint: (int, int) -> int, choice: (nat, nat) -> nat): (padding: seq<string>)
    requires IsRandIntSource(randint) && IsChoiceSource(choice)
    ensures IsDraw(n, |padding|)
    ensures forall k :: 0 <= k < |padding| ==> IsSyntheticLine(padding[k])
  {
    var b := PaddingBounds(n);
    var count := randint(b.0, b.1);
    GeneratePadding(count, choice)
  }

  /** The reply get_range gives, as a function of the request and of what the
      store and the random source answer. An invalid prefix is refused with
      400 before the store is asked; a valid one is looked up once, under its
      upper-case form (itself a valid prefix); NoSuchKey gives 404 and any
      other store error, like an object that is not ASCII, is not caught; a
      body is given exactly when the object was found and decoded, and it is
      then padded as IsPaddedResponse says. */
  function RangeReply(hash: string, store: string -> StoreResult,
                      randint: (int, int) -> int, choice: (nat, nat) -> nat): (r: Reply)
    requires IsRandIntSource(randint) && IsChoiceSource(choice)
    ensures r.outcome == HttpError(BadRequest) <==> !IsValidHash(hash)
    ensures !IsValidHash(hash) ==> r.lookups == []
    ensures IsValidHash(hash) ==> r.lookups == [ToUpper(hash)] && IsValidHash(ToUpper(hash))
    ensures IsValidHash(hash) && store(ToUpper(hash)) == NoSuchKey ==> r.outcome == HttpError(NotFound)
    ensures IsValidHash(hash) && store(ToUpper(hash)).OtherError? ==>
              r.outcome == Unhandled(StoreFailure(store(ToUpper(hash)).code))
    ensures r.outcome.PlainText? <==>
              IsValidHash(hash) && store(ToUpper(hash)).Found? && DecodeAscii(store(ToUpper(hash)).body).Some?
    ensures !r.outcome.PlainText? ==> r.warnings == 0
  {
    if !IsValidHash(hash) then Reply(HttpError(BadRequest), [], 0)
    else
      KeyIsCanonical(hash);
      var key := ToUpper(hash);
      match store(key)
      case NoSuchKey => Reply(HttpError(NotFound), [key], 0)
      case OtherError(code) => Reply(Unhandled(StoreFailure(code)), [key], 0)
      case Found(body) => ObjectReply(key, body, randint, choice)
  }

  /** The reply for an object found under `key` with bytes `body`: a body
      that is not ASCII is an uncaught error. */
  function ObjectReply(key: string, body: seq<byte>,
                       randint: (int, int) -> int, choice: (nat, nat) -> nat): (r: Reply)
    requires IsRandIntSource(randint) && IsChoiceSource(choice)
    ensures r.lookups == [key]
    ensures r.outcome.PlainText? <==> DecodeAscii(body).Some?
    ensures !r.outcome.PlainText? ==> r.outcome == Unhandled(AsciiDecodeFailure) && r.warnings == 0
  {
    match DecodeAscii(body)
    case None => Reply(Unhandled(AsciiDecodeFailure), [key], 0)
    case Some(text) => PaddedReply(key, text, randint, choice)
  }

  /** The reply for an object found under `key` whose text is `text`. */
  function PaddedReply(key: string, text: string,
                       randint: (int, int) -> int, choice: (nat, nat) -> nat): (r: Reply)
    requires IsRandIntSource(randint) && IsChoiceSource(choice)
    ensures r.outcome.PlainText? && r.lookups == [key]
  {
    var content := BodyLines(text);
    var n := |content|;
    var padding := PaddingFor(n, randint, choice);
    Reply(PlainText(Join(content + padding, LineBreak)), [key], if WarnsFor(n) then 1 else 0)
  }

  /** What a padded response promises about a decoded object `text`: its
      lines relate to the object's real lines as PaddedLines says, and the
      response text starts with the stripped object text. */
  ghost predicate IsPaddedResponse(text: string, response: string, warnings: nat) {
    && PaddedLines(Split(Strip(text), LineBreak), Split(response, LineBreak), warnings)
    && Strip(text) <= response
  }

  /** The response lines are the real lines, unchanged and in order, followed
      by synthetic lines only; the line count obeys the padding policy; one
      warning is logged exactly when there are more than 800 real lines. */
  ghost predicate PaddedLines(actual: seq<string>, lines: seq<string>, warnings: nat) {
    && 1 <= |actual| <= |lines|
    && lines[..|actual|] == actual
    && (forall k :: |actual| <= k < |lines| ==> IsSyntheticLine(lines[k]))
    && (|actual| <= PaddedMinimum ==> PaddedMinimum <= |lines| <= PaddedMaximum)
    && (|actual| > PaddedMinimum ==> |lines| <= |actual| + ExtraMaximum)
    && warnings == (if |actual| > PaddedMinimum then 1 else 0)
  }

  /** Any padding the policy allows, appended to the real lines, gives
      padded lines. */
  lemma PaddingIsPolicy(actual: seq<string>, padding: seq<string>)
    requires |actual| >= 1
    requires IsDraw(|actual|, |padding|)
    requires forall k :: 0 <= k < |padding| ==> IsSyntheticLine(padding[k])
    ensures PaddedLines(actual, actual + padding, if WarnsFor(|actual|) then 1 else 0)
  {
    var n := |actual|;
    var lines := actual + padding;
    assert lines[..n] == actual;
    forall k | n <= k < |lines| ensures IsSyntheticLine(lines[k]) {
      assert lines[k] == padding[k - n];
    }
    if n <= PaddedMinimum {
      PossibleTotalsUpToMinimum(n, |lines|);
    } else {
      PossibleTotalsAboveMinimum(n, |lines|);
    }
  }

  /** Appending synthetic lines to the real ones: the response splits back
      into exactly those lines, and it begins with the joined real lines. */
  lemma JoinPadded(actual: seq<string>, padding: seq<string>)
    requires |actual| >= 1
    requires forall i :: 0 <= i < |actual| ==> LineBreak !in actual[i]
    requires forall k :: 0 <= k < |padding| ==> IsSyntheticLine(padding[k])
    ensures Split(Join(actual + padding, LineBreak), LineBreak) == actual + padding
    ensures Join(actual, LineBreak) <= Join(actual + padding, LineBreak)
  {
    var all := actual + padding;
    forall i | 0 <= i < |all| ensures LineBreak !in all[i] {
      if i >= |actual| {
        assert all[i] == padding[i - |actual|];
        SyntheticLineShape(padding[i - |actual|]);
      }
    }
    SplitJoin(all, LineBreak);
    if padding == [] {
      assert all == actual;
    } else {
      JoinAppend(actual, padding, LineBreak);
    }
  }

  /** The real lines of a decoded object followed by any padding the policy
      allows form a padded response. */
  lemma PaddedBody(text: string, padding: seq<string>)
    requires IsDraw(|BodyLines(text)|, |padding|)
    requires forall k :: 0 <= k < |padding| ==> IsSyntheticLine(padding[k])
    ensures var n := |BodyLines(text)|;
      IsPaddedResponse(text, Join(BodyLines(text) + padding, LineBreak), if WarnsFor(n) then 1 else 0)
  {
    var actual := BodyLines(text);
    JoinPadded(actual, padding);
    PaddingIsPolicy(actual, padding);
  }

  /** A successful lookup gives a padded response for the object's text. */
  lemma PaddedResponse(hash: string, store: string -> StoreResult,
                       randint: (int, int) -> int, choice: (nat, nat) -> nat)
    requires IsRandIntSource(randint) && IsChoiceSource(choice)
    requires RangeReply(hash, store, randint, choice).outcome.PlainText?
    ensures IsValidHash(hash) && store(ToUpper(hash)).Found? && DecodeAscii(store(ToUpper(hash)).body).Some?
    ensures var r := RangeReply(hash, store, randint, choice);
      IsPaddedResponse(DecodeAscii(store(ToUpper(hash)).body).value, r.outcome.text, r.warnings)
  {
    var text := DecodeAscii(store(ToUpper(hash)).body).value;
    var n := |BodyLines(text)|;
    PaddedBody(text, PaddingFor(n, randint, choice));
  }

  /** A lower-case prefix is served exactly as its upper-case form. */
  lemma CaseInsensitive(hash: string, store: string -> StoreResult,
                        randint: (int, int) -> int, choice: (nat, nat) -> nat)
    requires IsRandIntSource(randint) && IsChoiceSource(choice)
    requires IsValidHash(hash)
    ensures RangeReply(hash, store, randint, choice) == RangeReply(ToUpper(hash), store, randint, choice)
  {
    KeyIsCanonical(hash);
    var key := ToUpper(hash);
    assert ToUpper(key) == key;
  }

  /** Two valid prefixes that denote the same number get the same reply. */
  lemma SameNumberSameReply(h1: string, h2: string, store: string -> StoreResult,
                            randint: (int, int) -> int, choice: (nat, nat) -> nat)
    requires IsRandIntSource(randint) && IsChoiceSource(choice)
    requires IsValidHash(h1) && IsValidHash(h2)
    requires IsHexString(h1) && IsHexString(h2) && Value(h1) == Value(h2)
    ensures RangeReply(h1, store, randint, choice) == RangeReply(h2, store, randint, choice)
  {
    SameKeyIff(h1, h2);
  }

  /** get_range: the steps of the handler in order, with the store's and the
      random source's answers taken from the parameters. It gives the reply
      RangeReply describes; the properties of that reply are repeated here. */
  method GetRange(hash: string, store: string -> StoreResult,
                  randint: (int, int) -> int, choice: (nat, nat) -> nat)
    returns (outcome: Outcome, lookups: seq<string>, warnings: nat)
    requires IsRandIntSource(randint) && IsChoiceSource(choice)
    ensures Reply(outcome, lookups, warnings) == RangeReply(hash, store, randint, choice)
    ensures outcome == HttpError(BadRequest) <==> !IsValidHash(hash)
    ensures !IsValidHash(hash) ==> lookups == []
    ensures IsValidHash(hash) ==> lookups == [ToUpper(hash)]
    ensures outcome.PlainText? ==>
              IsPaddedResponse(DecodeAscii(store(ToUpper(hash)).body).value, outcome.text, warnings)
  {
    lookups, warnings := [], 0;
    if !IsValidHash(hash) {
      outcome := HttpError(BadRequest);
      return;
    }
    var key := ToUpper(hash);
    lookups := lookups + [key];
    var obj := store(key);
    if obj.NoSuchKey? {
      outcome := HttpError(NotFound);
      return;
    }
    if obj.OtherError? {
      outcome := Unhandled(StoreFailure(obj.code));
      return;
    }
    outcome, warnings := ServeObject(key, obj.body, randint, choice);
    if outcome.PlainText? {
      PaddedResponse(hash, store, randint, choice);
    }
  }

  /** The part of get_range that reads a found object: decode it as ASCII,
      strip it, split it into lines, append the padding the policy draws and
      join the lines again. */
  method ServeObject(key: string, body: seq<byte>,
                     randint: (int, int) -> int, choice: (nat, nat) -> nat)
    returns (outcome: Outcome, warnings: nat)
    requires IsRandIntSource(randint) && IsChoiceSource(choice)
    ensures Reply(outcome, [key], warnings) == ObjectReply(key, body, randint, choice)
  {
    warnings := 0;
    var decoded := DecodeAscii(body);
    if decoded.None? {
      outcome := Unhandled(AsciiDecodeFailure);
      return;
    }
    var content := Split(Strip(decoded.value), LineBreak);
    ghost var n := |content|;
    var padding: seq<string>;
    if |content| <= PaddedMinimum {
      var count := randint(PaddedMinimum - |content|, PaddedMaximum - |content|);
      padding := GeneratePadding(count, choice);
    } else {
      warnings := warnings + 1;
      padding := GeneratePadding(randint(0, ExtraMaximum), choice);
    }
    assert padding == PaddingFor(n, randint, choice);
    content := content + padding;
    outcome := PlainText(Join(content, LineBreak));
  }
}
