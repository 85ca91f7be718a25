/** The demo program (main.cpp:4-15): it encrypts the 17 bytes of the string
    literal "Test1337Test1337" (sixteen characters and the terminating NUL),
    then decrypts the first 17 bytes of the result with the same key buffer
    and the IV the encryption left behind. `key` and `iv` are never
    initialized, so their contents are parameters here. */
module Demo {
  import opened Bytes
  import opened Driver

  /** The bytes of "Test1337Test1337" followed by the NUL of the literal. */
  const DemoText: seq<bv8> := [
    0x54, 0x65, 0x73, 0x74, 0x31, 0x33, 0x33, 0x37,
    0x54, 0x65, 0x73, 0x74, 0x31, 0x33, 0x33, 0x37,
    0x00
  ]

  /** The ciphertext of the demo: the text XORed with the key, then zeros to
      the end of the block. */
  predicate IsDemoCipher(enc: seq<bv8>, keyBytes: seq<bv8>)
    requires IsBlock(keyBytes)
  {
    |enc| == BlockSize
    && (forall i :: 0 <= i < |DemoText| ==> enc[i] == DemoText[i] ^ keyBytes[i])
    && (forall i :: |DemoText| <= i < BlockSize ==> enc[i] == 0)
  }

  /** The decryption of the demo: the text, then zeros to the end of the block. */
  predicate IsDemoPlain(dec: seq<bv8>)
  {
    |dec| == BlockSize
    && dec[..|DemoText|] == DemoText
    && (forall i :: |DemoText| <= i < BlockSize ==> dec[i] == 0)
  }

  /** `main` without its printing. The encrypted buffer is the text XORed
      with the key, padded with zeros to one block. The decrypted buffer is
      the text again, followed by 15 zero bytes, whatever the key and the IV
      held. */
  method RunDemo(keyBytes: seq<bv8>, ivBytes: seq<bv8>) returns (encOut: array<bv8>, decOut: array<bv8>)
    requires IsBlock(keyBytes) && IsBlock(ivBytes)
    ensures IsDemoCipher(encOut[..], keyBytes)
    ensures IsDemoPlain(decOut[..])
  {
    var data := NewDemoData();
    var key := new bv8[BlockSize](i requires 0 <= i < BlockSize => keyBytes[i]);
    var iv := new bv8[BlockSize](i requires 0 <= i < BlockSize => ivBytes[i]);
    ghost var text := data[..];
    assert data[..17] == text && |text| == 17;
    assert key[..] == keyBytes;

    encOut := EncDec(data, 17, key, iv, false);
    ghost var ivAfter, enc := iv[..], encOut[..];
    decOut := EncDec(encOut, 17, key, iv, true);
    DemoOutputs(text, keyBytes, ivAfter, enc, decOut[..]);
  }

  /** The buffer `data` points at (main.cpp:6): the 17 bytes of the string
      literal, read as bytes. */
  method NewDemoData() returns (data: array<bv8>)
    ensures fresh(data) && data[..] == DemoText
  {
    data := new bv8[17](i requires 0 <= i < 17 => DemoText[i]);
  }

  /** The two buffers of the demo: the ciphertext is the text XORed with the
      key, then zeros; the decryption of its first 17 bytes is the text, then
      zeros. */
  lemma DemoOutputs(text: seq<bv8>, k0: seq<bv8>, iv: seq<bv8>, enc: seq<bv8>, dec: seq<bv8>)
    requires IsBlock(k0) && IsBlock(iv) && text == DemoText
    requires enc == EncDecOutput(text, k0, iv) && dec == EncDecOutput(enc[..|text|], k0, iv)
    ensures IsDemoCipher(enc, k0) && IsDemoPlain(dec)
  {
    forall i | 0 <= i < BlockSize
      ensures enc[i] == if i < |text| then text[i] ^ k0[i] else 0
    {
      OutputShape(text, k0, iv, i);
      if i < |text| {
        FirstBlockUsesInitialKey(text, k0, iv, i);
      }
    }
    SingleBlockRoundTrip(text, k0, iv, iv);
  }
}
