/** The label decoder: turns the two swapped tag bytes of a POT record into
    the character string they encode, trying GB2312 first and GBK second.
    The two code tables are not modelled; they are supplied as partial
    functions in a `Codecs` value. */
module TagCode {
  import opened LittleEndian

  datatype Option<T> = None | Some(value: T)

  /** The two legacy decoders, each undefined (`None`) on byte strings it
      rejects, as `bytes.decode` raises `UnicodeDecodeError` there. */
  datatype Codecs = Codecs(gb2312: seq<byte> -> Option<string>, gbk: seq<byte> -> Option<string>)

  /** Why a tag code yields no label. */
  datatype LabelError =
    | NullTagCode                       // every byte was 0x00
    | Undecodable(code: seq<byte>)      // neither codec accepts the stripped bytes

  datatype Decoded = Label(text: string) | Failure(reason: LabelError)

  /** The bytes of `bs` other than 0x00, in their original order. */
  function StripNulls(bs: seq<byte>): (r: seq<byte>)
    ensures 0 !in r
    ensures |r| == 0 <==> forall i | 0 <= i < |bs| :: bs[i] == 0
  {
    if |bs| == 0 then []
    else
      assert bs == [bs[0]] + bs[1..];
      (if bs[0] == 0 then [] else [bs[0]]) + StripNulls(bs[1..])
  }

  /** Stripping drops every null byte and keeps every other byte exactly
      as often as it occurs. */
  lemma {:induction false} StripNullsContents(bs: seq<byte>)
    ensures multiset(StripNulls(bs)) == multiset(bs)[0 := 0]
  {
    if |bs| != 0 {
      StripNullsContents(bs[1..]);
      assert bs == [bs[0]] + bs[1..];
    }
  }

  /** Stripping distributes over concatenation, so it keeps the relative
      order of the non-null bytes. */
  lemma {:induction false} StripNullsConcat(a: seq<byte>, b: seq<byte>)
    ensures StripNulls(a + b) == StripNulls(a) + StripNulls(b)
  {
    if |a| == 0 {
      assert a + b == b;
    } else {
      assert (a + b)[1..] == a[1..] + b;
      StripNullsConcat(a[1..], b);
    }
  }

  /** A byte string without nulls is left unchanged, and only such strings are. */
  lemma {:induction false} StripNullsIdentity(bs: seq<byte>)
    ensures StripNulls(bs) == bs <==> 0 !in bs
  {
    if |bs| != 0 {
      StripNullsIdentity(bs[1..]);
      assert bs == [bs[0]] + bs[1..];
    }
  }

  /** `decode_tag_code`: strip the nulls; fail without consulting either
      codec when nothing is left; otherwise GB2312, then GBK, then fail. */
  function DecodeTagCode(codecs: Codecs, code: seq<byte>): (r: Decoded)
    ensures r == Failure(NullTagCode) <==> forall i | 0 <= i < |code| :: code[i] == 0
    ensures var stripped := StripNulls(code);
            r == Failure(Undecodable(stripped)) <==>
              |stripped| > 0 && codecs.gb2312(stripped) == None && codecs.gbk(stripped) == None
    ensures r.Failure? && r.reason.Undecodable? ==> r.reason.code == StripNulls(code)
    ensures var stripped := StripNulls(code);
            |stripped| > 0 && codecs.gb2312(stripped).Some? ==> r == Label(codecs.gb2312(stripped).value)
    ensures var stripped := StripNulls(code);
            |stripped| > 0 && codecs.gb2312(stripped) == None && codecs.gbk(stripped).Some? ==>
              r == Label(codecs.gbk(stripped).value)
  {
    var stripped := StripNulls(code);
    if |stripped| == 0 then
      Failure(NullTagCode)
    else
      match codecs.gb2312(stripped)
      case Some(s) => Label(s)
      case None =>
        match codecs.gbk(stripped)
        case Some(s) => Label(s)
        case None => Failure(Undecodable(stripped))
  }

  /** The two-byte tag code the reader builds: the first two bytes of the
      four-byte tag field, swapped. */
  function SwappedTagCode(tagField: seq<byte>): seq<byte>
    requires |tagField| >= 2
  {
    [tagField[1], tagField[0]]
  }

  /** A single null byte on either side of the code is ignored: the label
      depends only on the non-null byte. */
  lemma NullPaddingIgnored(codecs: Codecs, b: byte)
    requires b != 0
    ensures DecodeTagCode(codecs, [0, b]) == DecodeTagCode(codecs, [b, 0]) == DecodeTagCode(codecs, [b])
  {
    assert StripNulls([0, b]) == [b] by { StripNullsConcat([0], [b]); }
    assert StripNulls([b, 0]) == [b] by { StripNullsConcat([b], [0]); }
  }
}
