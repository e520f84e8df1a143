/** The pipe-delimited signalling messages relayed over the WebSocket:
    `OFFER|desc`, `ANSWER|desc` and `ICE|mid|index|candidate`. */
module Wire {
  import opened Results
  import opened Fields
  import opened Decimal

  const OfferTag: string := "OFFER"
  const AnswerTag: string := "ANSWER"
  const IceTag: string := "ICE"

  /** One signalling message. `mid` is the candidate's `sdpMid`, taken as non-null. */
  datatype Message =
    | Offer(sdp: string)
    | Answer(sdp: string)
    | Ice(mid: string, index: Int32, candidate: string)

  /** Why reading a message threw: a field that `split` did not produce
      (IndexOutOfBoundsException) or an index field `toInt` refused
      (NumberFormatException). */
  datatype DecodeError =
    | MissingField(position: nat)
    | NotAnInt(text: string)

  function Tag(m: Message): string {
    match m
    case Offer(_) => OfferTag
    case Answer(_) => AnswerTag
    case Ice(_, _, _) => IceTag
  }

  /** True when no free-text field of `m` holds the separator, so that the
      message crosses the wire unchanged. */
  predicate WireSafe(m: Message) {
    match m
    case Offer(sdp) => Clean(sdp)
    case Answer(sdp) => Clean(sdp)
    case Ice(mid, _, candidate) => Clean(mid) && Clean(candidate)
  }

  /** The three string templates that produce outbound messages. */
  function Encode(m: Message): (text: string)
    ensures Split(text)[0] == Tag(m)
  {
    match m
    case Offer(sdp) =>
      SplitCons(OfferTag, sdp);
      OfferTag + [Delim] + sdp
    case Answer(sdp) =>
      SplitCons(AnswerTag, sdp);
      AnswerTag + [Delim] + sdp
    case Ice(mid, index, candidate) =>
      var payload := mid + [Delim] + IntToDecimal(index) + [Delim] + candidate;
      SplitCons(IceTag, payload);
      assert IceTag + [Delim] + mid + [Delim] + IntToDecimal(index) + [Delim] + candidate
          == IceTag + [Delim] + payload;
      IceTag + [Delim] + mid + [Delim] + IntToDecimal(index) + [Delim] + candidate
  }

  /** Field `i` of a split message, as Kotlin's `parts[i]`. */
  function Field(parts: seq<string>, i: nat): (r: Result<string, DecodeError>)
    ensures r.Success? <==> i < |parts|
    ensures r.Success? ==> r.value == parts[i]
    ensures r.Failure? ==> r.error == MissingField(i)
  {
    if i < |parts| then Success(parts[i]) else Failure(MissingField(i))
  }

  /** `parts[2].toInt()` */
  function ToInt(text: string): (r: Result<Int32, DecodeError>)
    ensures r.Failure? ==> r.error == NotAnInt(text)
  {
    match ParseInt(text)
    case Some(v) => Success(v)
    case None => Failure(NotAnInt(text))
  }

  /** The reading half of `handleSignal`: split on every separator, dispatch on
      field 0, and read the positional fields in the order Kotlin evaluates
      them. `Success(None)` is a tag the `when` has no branch for. */
  function Decode(text: string): (r: Result<Option<Message>, DecodeError>)
    ensures r == Success(None) <==> Split(text)[0] !in {OfferTag, AnswerTag, IceTag}
    ensures r.Success? && r.value.Some? ==> Tag(r.value.value) == Split(text)[0]
    ensures r.Failure? && r.error.MissingField? ==> r.error.position >= |Split(text)|
  {
    var parts := Split(text);
    if parts[0] == OfferTag then
      var sdp :- Field(parts, 1);
      Success(Some(Offer(sdp)))
    else if parts[0] == AnswerTag then
      var sdp :- Field(parts, 1);
      Success(Some(Answer(sdp)))
    else if parts[0] == IceTag then
      var mid :- Field(parts, 1);
      var indexText :- Field(parts, 2);
      var index :- ToInt(indexText);
      var candidate :- Field(parts, 3);
      Success(Some(Ice(mid, index, candidate)))
    else
      Success(None)
  }

  lemma DecimalIsClean(n: int)
    ensures Clean(IntToDecimal(n))
  {
  }

  /** The fields of an OFFER or ANSWER text: the tag, then the fields of the description. */
  lemma DescriptionFields(tag: string, desc: string)
    requires tag == OfferTag || tag == AnswerTag
    ensures Split(tag + [Delim] + desc) == [tag] + Split(desc)
  {
    SplitCons(tag, desc);
  }

  /** The fields of an ICE text: tag, mid and index, then the fields of the candidate. */
  lemma CandidateFields(mid: string, index: Int32, candidate: string)
    requires Clean(mid)
    ensures Split(Encode(Ice(mid, index, candidate))) == [IceTag, mid, IntToDecimal(index)] + Split(candidate)
  {
    var digits := IntToDecimal(index);
    IceText(mid, index, candidate);
    DecimalIsClean(index);
    SplitThree(IceTag, mid, digits, candidate);
  }

  lemma IceText(mid: string, index: Int32, candidate: string)
    ensures Encode(Ice(mid, index, candidate))
         == IceTag + [Delim] + (mid + [Delim] + (IntToDecimal(index) + [Delim] + candidate))
  {
  }

  /** Round trip: every message whose free-text fields hold no separator is
      read back as itself. */
  lemma DecodeEncode(m: Message)
    requires WireSafe(m)
    ensures Decode(Encode(m)) == Success(Some(m))
  {
    match m
    case Offer(sdp) =>
      DescriptionFields(OfferTag, sdp);
      SplitClean(sdp);
    case Answer(sdp) =>
      DescriptionFields(AnswerTag, sdp);
      SplitClean(sdp);
    case Ice(mid, index, candidate) =>
      CandidateFields(mid, index, candidate);
      SplitClean(candidate);
      ParseIntToDecimal(index);
  }

  /** A description holding the separator is cut at its first separator:
      OFFER and ANSWER read field 1 only, and never fail on extra fields. */
  lemma DecodeTruncatesDescription(desc: string)
    ensures Decode(OfferTag + [Delim] + desc) == Success(Some(Offer(FirstField(desc))))
    ensures Decode(AnswerTag + [Delim] + desc) == Success(Some(Answer(FirstField(desc))))
  {
    DescriptionFields(OfferTag, desc);
    DescriptionFields(AnswerTag, desc);
  }

  /** A candidate text holding the separator is cut at its first separator:
      ICE reads fields 1 to 3 only, and never fails on extra fields. */
  lemma DecodeTruncatesCandidate(mid: string, index: Int32, candidate: string)
    requires Clean(mid)
    ensures Decode(Encode(Ice(mid, index, candidate))) == Success(Some(Ice(mid, index, FirstField(candidate))))
  {
    CandidateFields(mid, index, candidate);
    ParseIntToDecimal(index);
  }

  /** Whatever follows a well-formed message after one more separator is ignored. */
  lemma DecodeIgnoresExtraFields(m: Message, extra: string)
    requires WireSafe(m)
    ensures Decode(Encode(m) + [Delim] + extra) == Success(Some(m))
  {
    if m.Ice? {
      IceIgnoresExtraFields(m.mid, m.index, m.candidate, extra);
    } else {
      DescriptionIgnoresExtraFields(Tag(m), m.sdp, extra);
      assert Encode(m) == Tag(m) + [Delim] + m.sdp;
    }
  }

  lemma DescriptionIgnoresExtraFields(tag: string, desc: string, extra: string)
    requires tag == OfferTag || tag == AnswerTag
    requires Clean(desc)
    ensures Split(tag + [Delim] + desc + [Delim] + extra) == [tag, desc] + Split(extra)
  {
    DescriptionFields(tag, desc + [Delim] + extra);
    SplitCons(desc, extra);
    assert tag + [Delim] + desc + [Delim] + extra == tag + [Delim] + (desc + [Delim] + extra);
    assert [tag] + ([desc] + Split(extra)) == [tag, desc] + Split(extra);
  }

  lemma IceIgnoresExtraFields(mid: string, index: Int32, candidate: string, extra: string)
    requires Clean(mid) && Clean(candidate)
    ensures Decode(Encode(Ice(mid, index, candidate)) + [Delim] + extra) == Success(Some(Ice(mid, index, candidate)))
  {
    var digits := IntToDecimal(index);
    var longer := candidate + [Delim] + extra;
    var text := Encode(Ice(mid, index, candidate)) + [Delim] + extra;
    IceText(mid, index, candidate);
    IceText(mid, index, longer);
    assert text == Encode(Ice(mid, index, longer));
    CandidateFields(mid, index, longer);
    SplitCons(candidate, extra);
    assert Split(text) == [IceTag, mid, digits, candidate] + Split(extra);
    DecodeIceFields(text, mid, index, candidate);
  }

  /** A text whose first four fields are ICE, a mid, the rendering of an index
      and a candidate is read as that candidate. */
  lemma DecodeIceFields(text: string, mid: string, index: Int32, candidate: string)
    requires |Split(text)| >= 4
    requires Split(text)[..4] == [IceTag, mid, IntToDecimal(index), candidate]
    ensures Decode(text) == Success(Some(Ice(mid, index, candidate)))
  {
    ParseIntToDecimal(index);
    var parts := Split(text);
    assert parts[0] == IceTag && parts[1] == mid && parts[2] == IntToDecimal(index) && parts[3] == candidate;
  }

  /** Exactly when reading a message throws: OFFER or ANSWER without field 1,
      ICE with fewer than four fields, or ICE whose field 2 is not an `Int`. */
  lemma DecodeFailsIff(text: string)
    ensures Decode(text).Failure? <==>
      var parts := Split(text);
      || ((parts[0] == OfferTag || parts[0] == AnswerTag) && |parts| < 2)
      || (parts[0] == IceTag && (|parts| < 4 || ParseInt(parts[2]).None?))
  {
  }

  /** The errors of Kotlin's left-to-right evaluation of
      `IceCandidate(parts[1], parts[2].toInt(), parts[3])`: a bad index is
      reported before a missing candidate. */
  lemma IceErrorOrder(text: string)
    requires Split(text)[0] == IceTag
    ensures |Split(text)| == 3 && ParseInt(Split(text)[2]).None? ==> Decode(text) == Failure(NotAnInt(Split(text)[2]))
    ensures |Split(text)| == 3 && ParseInt(Split(text)[2]).Some? ==> Decode(text) == Failure(MissingField(3))
    ensures |Split(text)| == 2 ==> Decode(text) == Failure(MissingField(2))
    ensures |Split(text)| == 1 ==> Decode(text) == Failure(MissingField(1))
  {
  }

  /** Every two-field ICE text fails on the missing index field. */
  lemma DecodeTwoFieldIce(field: string)
    requires Clean(field)
    ensures Decode(IceTag + [Delim] + field) == Failure(MissingField(2))
  {
    SplitCons(IceTag, field);
    SplitClean(field);
  }

  /** A text with no separator is a lone tag: a known tag fails on the missing
      field 1, any other text is no message. */
  lemma DecodeSingleField(tag: string)
    requires Clean(tag)
    ensures Decode(tag) == if tag in {OfferTag, AnswerTag, IceTag} then Failure(MissingField(1)) else Success(None)
  {
    SplitClean(tag);
  }

  /** A bare OFFER fails on the missing description. */
  lemma DecodeBareOffer()
    ensures Decode(OfferTag) == Failure(MissingField(1))
  {
    DecodeSingleField(OfferTag);
  }

  /** Whatever follows it, a separator-free first field other than exactly
      OFFER, ANSWER or ICE is no message. */
  lemma DecodeUnknownTag(tag: string, rest: string)
    requires Clean(tag) && tag !in {OfferTag, AnswerTag, IceTag}
    ensures Decode(tag + [Delim] + rest) == Success(None)
  {
    SplitCons(tag, rest);
  }

  /** Examples of unknown tags: tags are matched case-sensitively, and the
      empty text is an unknown tag. */
  lemma DecodeTagIsCaseSensitive()
    ensures Decode("offer|v=0") == Success(None)
    ensures Decode("") == Success(None)
  {
    DecodeUnknownTag("offer", "v=0");
    assert "offer" + [Delim] + "v=0" == "offer|v=0";
  }
}
