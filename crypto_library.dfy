/**
 * The cryptography and text-codec library calls the encryption service
 * makes, kept abstract: PBKDF2-HMAC-SHA256 (section 5.2 of RFC 8018),
 * Fernet token encryption and decryption, and UTF-8 encoding and decoding.
 * They enter the model as a record of total functions; `Sound` states the
 * contract the model relies on.  `ToyLibraryIsSound` exhibits one record
 * that meets the contract, so the contract is not contradictory.
 */
module CryptoLibrary {
  import opened Wrappers
  import opened Base64Url

  /** A Fernet key is 32 raw bytes (16 signing, 16 encryption). */
  const FernetKeyLength: nat := 32

  datatype Library = Library(
    /** PBKDF2-HMAC-SHA256(password, salt, iterations, length) */
    pbkdf2: (seq<byte>, seq<byte>, nat, nat) -> seq<byte>,
    /** Fernet(key).encrypt(data), with the IV and the clock made explicit */
    fernetEncrypt: (seq<byte>, seq<byte>, int, seq<byte>) -> seq<byte>,
    /** Fernet(key).decrypt(token); None stands for InvalidToken */
    fernetDecrypt: (seq<byte>, seq<byte>) -> Option<seq<byte>>,
    /** str.encode() */
    utf8Encode: string -> seq<byte>,
    /** bytes.decode(); None stands for UnicodeDecodeError */
    utf8Decode: seq<byte> -> Option<string>)

  /** The contract of the library calls:
      PBKDF2 returns exactly the requested number of bytes;
      a Fernet token opens under the key that made it and under no other key;
      a Fernet token is never empty;
      UTF-8 decoding undoes UTF-8 encoding. */
  ghost predicate Sound(lib: Library) {
    && (forall pw, salt, n, len :: |lib.pbkdf2(pw, salt, n, len)| == len)
    && (forall k, iv, t, m :: |k| == FernetKeyLength ==>
          lib.fernetDecrypt(k, lib.fernetEncrypt(k, iv, t, m)) == Some(m))
    && (forall k, k', iv, t, m :: |k| == FernetKeyLength && |k'| == FernetKeyLength && k != k' ==>
          lib.fernetDecrypt(k', lib.fernetEncrypt(k, iv, t, m)).None?)
    && (forall k, iv, t, m :: lib.fernetEncrypt(k, iv, t, m) != [])
    && (forall s :: lib.utf8Decode(lib.utf8Encode(s)) == Some(s))
  }

  // ---- A toy library meeting the contract (it is not Fernet) ----

  function ToyTokenOpen(k: seq<byte>, token: seq<byte>): Option<seq<byte>> {
    if |token| >= 1 + |k| && token[0] == 0x80 && token[1..1 + |k|] == k
    then Some(token[1 + |k|..]) else None
  }

  /** Three bytes per scalar value, big-endian. */
  function ToyCharBytes(c: char): seq<byte> {
    var n := c as int;
    [n / 65536, n / 256 % 256, n % 256]
  }

  function ToyEncodeText(s: string): seq<byte> {
    if s == [] then [] else ToyCharBytes(s[0]) + ToyEncodeText(s[1..])
  }

  function ToyDecodeChar(a: byte, b: byte, c: byte): Option<char> {
    var n := a * 65536 + b * 256 + c;
    if 0 <= n < 0xD800 || 0xE000 <= n < 0x11_0000 then Some(n as char) else None
  }

  function ToyDecodeText(b: seq<byte>): Option<string>
    decreases |b|
  {
    if b == [] then Some([])
    else if |b| < 3 then None
    else match (ToyDecodeChar(b[0], b[1], b[2]), ToyDecodeText(b[3..]))
      case (Some(c), Some(rest)) => Some([c] + rest)
      case _ => None
  }

  lemma {:induction false} ToyTextRoundTrip(s: string)
    ensures ToyDecodeText(ToyEncodeText(s)) == Some(s)
  {
    if s != [] {
      var n := s[0] as int;
      var e := ToyCharBytes(s[0]);
      assert n / 65536 * 65536 + n / 256 % 256 * 256 + n % 256 == n;
      assert ToyDecodeChar(e[0], e[1], e[2]) == Some(s[0]);
      ToyTextRoundTrip(s[1..]);
      var all := e + ToyEncodeText(s[1..]);
      assert all[3..] == ToyEncodeText(s[1..]);
      assert [s[0]] + s[1..] == s;
    }
  }

  function ToyLibrary(): Library {
    Library(
      (pw: seq<byte>, salt: seq<byte>, n: nat, len: nat) => seq(len, i => 0),
      (k: seq<byte>, iv: seq<byte>, t: int, m: seq<byte>) => [0x80] + k + m,
      ToyTokenOpen,
      ToyEncodeText,
      ToyDecodeText)
  }

  /** The contract can be met. */
  lemma ToyLibraryIsSound()
    ensures Sound(ToyLibrary())
  {
    var lib := ToyLibrary();
    forall k, iv, t, m | |k| == FernetKeyLength
      ensures lib.fernetDecrypt(k, lib.fernetEncrypt(k, iv, t, m)) == Some(m)
    {
      var token := [0x80] + k + m;
      assert token[1..1 + |k|] == k && token[1 + |k|..] == m;
    }
    forall k, k', iv, t, m | |k| == FernetKeyLength && |k'| == FernetKeyLength && k != k'
      ensures lib.fernetDecrypt(k', lib.fernetEncrypt(k, iv, t, m)).None?
    {
      var token := [0x80] + k + m;
      assert token[1..1 + |k|] == k;
    }
    forall s ensures lib.utf8Decode(lib.utf8Encode(s)) == Some(s) {
      ToyTextRoundTrip(s);
    }
  }
}
