/** What the parser can produce, and the two directions put together. */
module JsonSound {
  import opened Bytes
  import opened JsonValue
  import opened JsonBuild
  import opened JsonParser
  import JsonGrammar
  import JsonRoundTrip
  import JsonSerializer

  /** Every value the parser returns has unique names, legal sizes, and no leaf below depth 19. */
  lemma ParsedIsSound(text: seq<byte>, nesting: nat)
    requires ReadValue(text, nesting).Got?
    ensures Sound(ReadValue(text, nesting).value, nesting)
  {
    hide ReadValue, LoneMinus;
    var r := ReadValue(text, nesting);
    JsonGrammar.AcceptedExactly(text, nesting, r.value, r.rest);
  }

  /** Whatever was parsed from any text can be written and parsed again without a change. */
  lemma ParsedReadsBack(text: seq<byte>, pretty: bool)
    requires ReadValue(text, 0).Got?
    ensures var v := ReadValue(text, 0).value; ReadValue(Text(v, 0, pretty), 0) == Got(v, [])
  {
    ParsedIsSound(text, 0);
    JsonRoundTrip.RoundTrip(ReadValue(text, 0).value, pretty);
  }

  /** Serialized into a buffer and parsed again, a value comes back exactly when it is shallow enough. */
  method ThereAndBack(v: Json, pretty: bool) returns (a: Answer)
    requires Proper(v)
    ensures a == if Shallow(v, 0) then Parsed(v) else NoValue
  {
    ProperIsUnique(v);
    var buf := JsonSerializer.SerializeToString(v, pretty);
    var text := buf[..buf.Length - 1];
    assert text == buf[..][..buf.Length - 1] == Text(v, 0, pretty);
    JsonRoundTrip.RoundTrip(v, pretty);
    var end;
    a, end := ParseText(text);
  }
}
