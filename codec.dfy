/** The gzip codec (RFC 1952) as the pipeline uses it: `zlib.createGzip()` on
    the way out, `zlib.createGunzip()` on the way back. DEFLATE itself is not
    modelled. A compressed file is represented by the three fixed bytes that
    open every gzip member (ID1 = 0x1f, ID2 = 0x8b, CM = 8, section 2.3.1 of
    RFC 1952), followed by what it encodes. Only two facts are used anywhere:
    decompressing a compressed text gives it back, and a file that does not
    start like a gzip member is rejected. */
module Codec {
  import opened Wrappers

  const GzipMagic: string := ['\U{1F}', '\U{8B}', '\U{8}']

  function Gzip(text: string): (packed: string)
    ensures |packed| == |GzipMagic| + |text|
  {
    GzipMagic + text
  }

  /** `None` stands for the codec error a corrupt or non-gzip input raises. */
  function Gunzip(packed: string): (text: Option<string>)
    ensures text.Some? <==> |packed| >= 3 && packed[..3] == GzipMagic
  {
    if |packed| >= 3 && packed[..3] == GzipMagic then Some(packed[3..]) else None
  }

  /** Round trip of the codec: decompressing a compressed text gives it back. */
  lemma GunzipGzip(text: string)
    ensures Gunzip(Gzip(text)) == Some(text)
  {
    assert Gzip(text)[..3] == GzipMagic;
    assert Gzip(text)[3..] == text;
  }

  /** Compression loses nothing: distinct texts compress differently. */
  lemma GzipInjective(a: string, b: string)
    requires Gzip(a) == Gzip(b)
    ensures a == b
  {
    GunzipGzip(a);
    GunzipGzip(b);
  }
}
