/**
 * The repeating-key XOR cipher (`xor_encrypt` / `xor_decrypt`). The two
 * copies of the cipher, in encrypt.c and src/encrypt.c, are the same code
 * and are modelled once.
 */
module XorCipher {
  import opened Wrappers
  import opened Bytes

  /** Byte `i` of the input combined with byte `i mod |key|` of the key. */
  function XorWith(x: seq<byte>, key: seq<byte>): (r: seq<byte>)
    requires |key| > 0
  {
    seq(|x|, i requires 0 <= i < |x| => Xor(x[i], key[i % |key|]))
  }

  /**
   * What `xor_encrypt` returns: NULL (None) for a NULL input or key, an empty
   * input or an empty key; otherwise `output_len` bytes of ciphertext.
   */
  function XorSpec(input: Option<seq<byte>>, key: Option<seq<byte>>): Option<seq<byte>> {
    if input.None? || key.None? || |input.value| == 0 then None
    else if |key.value| == 0 then None
    else Some(XorWith(input.value, key.value))
  }

  /** `xor_encrypt`: the loop writes each ciphertext byte into a fresh buffer. */
  method XorEncrypt(input: Option<seq<byte>>, key: Option<seq<byte>>) returns (r: Option<seq<byte>>)
    requires key.Some? ==> IsCString(key.value)
    ensures r == XorSpec(input, key)
  {
    if input.None? || key.None? || |input.value| == 0 {
      return None;
    }
    var x, k := input.value, key.value;
    var keyLen := |k|;
    if keyLen == 0 {
      return None;
    }
    var output := new byte[|x| + 1];
    for i := 0 to |x|
      invariant forall j :: 0 <= j < i ==> output[j] == Xor(x[j], k[j % keyLen])
    {
      output[i] := Xor(x[i], k[i % keyLen]);
    }
    output[|x|] := NUL;
    r := Some(output[..|x|]);
    assert r.value == XorWith(x, k);
  }

  /** `xor_decrypt` is `xor_encrypt` with the same arguments. */
  method XorDecrypt(input: Option<seq<byte>>, key: Option<seq<byte>>) returns (r: Option<seq<byte>>)
    requires key.Some? ==> IsCString(key.value)
    ensures r == XorSpec(input, key)
  {
    r := XorEncrypt(input, key);
  }

  /** Exactly the NULL, empty-input and empty-key cases fail; a result has the input's length. */
  lemma XorSpecFacts(input: Option<seq<byte>>, key: Option<seq<byte>>)
    ensures XorSpec(input, key).None? <==>
      input.None? || key.None? || |input.value| == 0 || |key.value| == 0
    ensures XorSpec(input, key).Some? ==> |XorSpec(input, key).value| == |input.value|
  {
  }

  /** Applying the cipher twice with the same key gives the input back. */
  lemma {:induction false} XorWithInvolutive(x: seq<byte>, key: seq<byte>)
    requires |key| > 0
    ensures XorWith(XorWith(x, key), key) == x
  {
    var y := XorWith(x, key);
    forall i | 0 <= i < |x|
      ensures XorWith(y, key)[i] == x[i]
    {
      XorInvolutive(x[i], key[i % |key|]);
    }
  }

  /** Decryption undoes encryption whenever encryption succeeds. */
  lemma XorRoundTrip(input: Option<seq<byte>>, key: Option<seq<byte>>)
    requires XorSpec(input, key).Some?
    ensures XorSpec(XorSpec(input, key), key) == input
  {
    XorWithInvolutive(input.value, key.value);
  }
}
