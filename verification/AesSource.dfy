/**
 The driver of os/lib/aes-128.c with the tables and operations of the source.
 */
module AesSource {
  import opened Aes
  import opened AesSpec
  import AesBytes
  import CcmAes

  type byte = bv8

  /** set_key and encrypt, for any operations that have the laws. */
  method EncryptOnce<B(!new)>(o: Ops<B>, key: seq<B>, state: array<B>)
    requires Lawful(o) && |key| == 16 && state.Length == 16
    modifies state
    ensures state[..] == BytesOf(Cipher(o, Expanded(o, key), StateOf(old(state[..]))))
  {
    var aes := new Aes128(o);
    aes.SetKey(key);
    ghost var c := Cipher(o, aes.Keys(), StateOf(state[..]));
    aes.Encrypt(state);
    BytesAndState(c, state[..]);
  }

  /** With those of the source the block becomes what AES-128 of FIPS 197 makes of it. */
  method EncryptBlock(key: seq<byte>, state: array<byte>)
    requires |key| == 16 && state.Length == 16
    modifies state
    ensures state[..] == CcmAes.Encrypt(key, old(state[..]))
  {
    AesBytes.BytesLawful();
    EncryptOnce(AesBytes.Bytes(), key, state);
  }
}
