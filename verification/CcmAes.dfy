/**
 AES-128 on blocks of bytes, as the cipher under CCM*.
 */
module CcmAes {
  import AesBytes
  import AesSpec
  import CcmSpec

  type byte = bv8

  function Encrypt(key: seq<byte>, b: seq<byte>): (r: seq<byte>)
    requires |key| == 16 && |b| == 16
    ensures |r| == 16
  {
    var o := AesBytes.Bytes();
    AesSpec.BytesOf(AesSpec.Cipher(o, AesSpec.Expanded(o, key), AesSpec.StateOf(b)))
  }

  function Decrypt(key: seq<byte>, b: seq<byte>): (r: seq<byte>)
    requires |key| == 16 && |b| == 16
    ensures |r| == 16
  {
    var o := AesBytes.Bytes();
    AesSpec.BytesOf(AesSpec.InvCipher(o, AesSpec.Expanded(o, key), AesSpec.StateOf(b)))
  }

  /** For every key, encryption is a bijection on blocks, with decryption as its inverse. */
  lemma EncryptIsBijective(key: seq<byte>, b: seq<byte>)
    requires |key| == 16 && |b| == 16
    ensures Decrypt(key, Encrypt(key, b)) == b && Encrypt(key, Decrypt(key, b)) == b
  {
    AesBytes.BytesLawful();
    Bijective(AesBytes.Bytes(), AesSpec.Expanded(AesBytes.Bytes(), key), b);
  }

  lemma Bijective<B(!new)>(o: AesSpec.Ops<B>, w: seq<AesSpec.State<B>>, b: seq<B>)
    requires AesSpec.Lawful(o) && |w| == 11 && |b| == 16
    ensures var c := AesSpec.BytesOf(AesSpec.Cipher(o, w, AesSpec.StateOf(b)));
            AesSpec.BytesOf(AesSpec.InvCipher(o, w, AesSpec.StateOf(c))) == b
    ensures var d := AesSpec.BytesOf(AesSpec.InvCipher(o, w, AesSpec.StateOf(b)));
            AesSpec.BytesOf(AesSpec.Cipher(o, w, AesSpec.StateOf(d))) == b
  {
    var s := AesSpec.StateOf(b);
    AesSpec.CipherIsBijective(o, w, s);
    AesSpec.BytesAndState(AesSpec.Cipher(o, w, s), b);
    AesSpec.BytesAndState(AesSpec.InvCipher(o, w, s), b);
  }

  /** AES with a key as a cipher for CCM*. */
  function BlockCipher(key: seq<byte>): CcmSpec.Cipher
    requires |key| == 16
  {
    CcmSpec.Cipher((b: seq<byte>) => if |b| == 16 then Encrypt(key, b) else b)
  }

  lemma BlockCipherOk(key: seq<byte>)
    requires |key| == 16
    ensures BlockCipher(key).Ok()
    ensures forall b {:trigger Encrypt(key, b)} :: |b| == 16 ==> CcmSpec.Encrypt(BlockCipher(key), b) == Encrypt(key, b)
  {
    var c := BlockCipher(key);
    forall b {:trigger c.OkAt(b)} ensures c.OkAt(b) {
      assert |b| == 16 ==> c.encrypt(b) == Encrypt(key, b);
    }
  }
}
