/**
  The library codecs the program calls, as function values with the laws their
  standards give them. Nothing is assumed of malformed input.
 */
module Codec {
  import opened Text

  /** `serde_json`. */
  datatype Json<!V> = Json(text: V -> seq<Byte>, parse: seq<Byte> -> Option<V>)

  /** Printed JSON parses back, is not empty and holds no control byte
      (section 7 of RFC 8259). */
  ghost predicate JsonLawful<V(!new)>(json: Json<V>) {
    forall v :: json.parse(json.text(v)) == Some(v) && json.text(v) != []
                && forall i :: 0 <= i < |json.text(v)| ==> json.text(v)[i] >= 0x20
  }

  /** `bincode`; its bytes are arbitrary. */
  datatype Bincode<!B> = Bincode(encode: B -> seq<Byte>, decode: seq<Byte> -> Option<B>)

  ghost predicate BincodeLawful<B(!new)>(bin: Bincode<B>) {
    forall b :: bin.decode(bin.encode(b)) == Some(b)
  }

  /** Decoding needs every byte that encoding wrote: a truncated encoding is an error. */
  ghost predicate RejectsTruncated<B(!new)>(bin: Bincode<B>) {
    forall b, n: nat :: n < |bin.encode(b)| ==> bin.decode(bin.encode(b)[..n]) != Some(b)
  }

  /** `std::str::from_utf8`. */
  type Utf8 = seq<Byte> -> Option<string>

  /** UTF-8 decodes ASCII bytes to themselves (section 3 of RFC 3629). */
  ghost predicate DecodesAscii(utf8: Utf8) {
    forall s: string :: IsAscii(s) ==> utf8(Ascii(s)) == Some(s)
  }
}
