/**
 * services/encryption_service.py: the field cipher.  A service is built once
 * from the master password and never changes, so it is a value here.
 * The key is PBKDF2-HMAC-SHA256 over the UTF-8 master password with a salt
 * fixed in the code, 100,000 iterations and 32 bytes of output, then
 * base64url-encoded; Fernet decodes that text back to its 32-byte key.
 */
module EncryptionServices {
  import opened Wrappers
  import opened Base64Url
  import opened CryptoLibrary

  /** b'salt_1234567890', the same for every vault. */
  const FixedSalt: seq<byte> := [115, 97, 108, 116, 95, 49, 50, 51, 52, 53, 54, 55, 56, 57, 48]
  const Iterations: nat := 100000
  const KeyLength: nat := 32

  datatype EncryptionService = EncryptionService(
    masterPassword: seq<byte>,   // the UTF-8 bytes of the master password
    salt: seq<byte>,
    key: string,                 // the base64url text handed to Fernet
    fernetKey: seq<byte>)        // the raw key Fernet holds after decoding it

  /** _derive_key: base64url(PBKDF2(password, salt, 100000, 32)).  The text
      is always 44 characters: 43 from the alphabet and one "=", and it
      decodes to the derived bytes. */
  function DeriveKey(lib: Library, masterPassword: seq<byte>, salt: seq<byte>): (key: string)
    ensures Sound(lib) ==> |key| == 44 && key[43] == Pad
    ensures Sound(lib) ==> forall i :: 0 <= i < 43 ==> InAlphabet(key[i])
    ensures Decode(key) == Some(lib.pbkdf2(masterPassword, salt, Iterations, KeyLength))
  {
    var raw := lib.pbkdf2(masterPassword, salt, Iterations, KeyLength);
    DecodeEncode(raw);
    KeyTextShape(raw);
    Encode(raw)
  }

  /** 32 bytes encode to 43 alphabet characters and one "=". */
  lemma KeyTextShape(raw: seq<byte>)
    ensures |raw| == 32 ==> |Encode(raw)| == 44 && Encode(raw)[43] == Pad
    ensures |raw| == 32 ==> forall i :: 0 <= i < 43 ==> InAlphabet(Encode(raw)[i])
  {
    EncodeShape(raw);
    assert |raw| == 32 ==> PadCount(|raw|) == 1;
  }

  /** Fernet's constructor: the key text must decode to exactly 32 bytes,
      otherwise it raises ValueError (None here). */
  function FernetKeyFromText(key: string): (k: Option<seq<byte>>)
    ensures k.Some? <==> Decode(key).Some? && |Decode(key).value| == FernetKeyLength
    ensures k.Some? ==> k.value == Decode(key).value
  {
    match Decode(key)
    case Some(raw) => if |raw| == FernetKeyLength then Some(raw) else None
    case None => None
  }

  /** EncryptionService(master_password).  Construction cannot fail when the
      library meets its contract, and the key Fernet holds is exactly the
      PBKDF2 output: nothing but the password decides it. */
  function NewService(lib: Library, masterPassword: string): (r: Option<EncryptionService>)
    ensures Sound(lib) ==> r.Some?
    ensures r.Some? ==> r.value.salt == FixedSalt && |r.value.fernetKey| == FernetKeyLength
    ensures r.Some? ==> r.value.fernetKey == lib.pbkdf2(lib.utf8Encode(masterPassword), FixedSalt, Iterations, KeyLength)
    ensures r.Some? ==> Decode(r.value.key) == Some(r.value.fernetKey)
  {
    var password := lib.utf8Encode(masterPassword);
    var key := DeriveKey(lib, password, FixedSalt);
    match FernetKeyFromText(key)
    case Some(k) => Some(EncryptionService(password, FixedSalt, key, k))
    case None => None
  }

  /** A service NewService can build. */
  ghost predicate Valid(svc: EncryptionService) {
    |svc.fernetKey| == FernetKeyLength
  }

  /** encrypt: the empty string stays empty without touching the cipher;
      anything else becomes base64url of a Fernet token, so the result uses
      only the URL-safe alphabet and "=". */
  function Encrypt(lib: Library, svc: EncryptionService, iv: seq<byte>, time: int, plaintext: string): (c: string)
    ensures plaintext == [] ==> c == []
    ensures Sound(lib) && plaintext != [] ==> c != []
    ensures |c| % 4 == 0
    ensures forall i :: 0 <= i < |c| ==> InAlphabet(c[i]) || c[i] == Pad
  {
    if plaintext == [] then []
    else
      var token := lib.fernetEncrypt(svc.fernetKey, iv, time, lib.utf8Encode(plaintext));
      EncodeEmptyIff(token);
      EncodeShape(token);
      Encode(token)
  }

  /** The three steps of decrypt all succeeded and gave `text`. */
  ghost predicate OpensTo(lib: Library, svc: EncryptionService, ciphertext: string, text: string) {
    && Decode(ciphertext).Some?
    && lib.fernetDecrypt(svc.fernetKey, Decode(ciphertext).value).Some?
    && lib.utf8Decode(lib.fernetDecrypt(svc.fernetKey, Decode(ciphertext).value).value) == Some(text)
  }

  /** decrypt: total.  The empty string, and every failure of base64url
      decoding, of Fernet verification or of UTF-8 decoding, gives "". */
  function Decrypt(lib: Library, svc: EncryptionService, ciphertext: string): (r: string)
    ensures ciphertext == [] ==> r == []
    ensures Decode(ciphertext).None? ==> r == []
    ensures Decode(ciphertext).Some? && lib.fernetDecrypt(svc.fernetKey, Decode(ciphertext).value).None? ==> r == []
    ensures r != [] ==> OpensTo(lib, svc, ciphertext, r)
    ensures forall text :: ciphertext != [] && OpensTo(lib, svc, ciphertext, text) ==> r == text
  {
    if ciphertext == [] then []
    else match Decode(ciphertext)
      case None => []
      case Some(token) =>
        match lib.fernetDecrypt(svc.fernetKey, token)
        case None => []
        case Some(data) =>
          match lib.utf8Decode(data)
          case None => []
          case Some(text) => text
  }

  /** Decrypting what the same service encrypted gives the plaintext back,
      for every plaintext (the empty one included) and every IV and time. */
  lemma DecryptEncrypt(lib: Library, svc: EncryptionService, iv: seq<byte>, time: int, plaintext: string)
    requires Sound(lib) && Valid(svc)
    ensures Decrypt(lib, svc, Encrypt(lib, svc, iv, time, plaintext)) == plaintext
  {
    if plaintext != [] {
      var token := lib.fernetEncrypt(svc.fernetKey, iv, time, lib.utf8Encode(plaintext));
      DecodeEncode(token);
    }
  }

  /** A ciphertext made under one key reads as "" under any other key. */
  lemma DecryptUnderOtherKey(lib: Library, writer: EncryptionService, reader: EncryptionService,
                             iv: seq<byte>, time: int, plaintext: string)
    requires Sound(lib) && Valid(writer) && Valid(reader) && writer.fernetKey != reader.fernetKey
    ensures Decrypt(lib, reader, Encrypt(lib, writer, iv, time, plaintext)) == []
  {
    if plaintext != [] {
      var token := lib.fernetEncrypt(writer.fernetKey, iv, time, lib.utf8Encode(plaintext));
      DecodeEncode(token);
    }
  }

  /** Opening the vault with a different master password (one whose PBKDF2
      output differs) reads every stored password as "". */
  lemma WrongMasterPasswordReadsEmpty(lib: Library, right: string, wrong: string,
                                      iv: seq<byte>, time: int, plaintext: string)
    requires Sound(lib)
    requires lib.pbkdf2(lib.utf8Encode(right), FixedSalt, Iterations, KeyLength)
          != lib.pbkdf2(lib.utf8Encode(wrong), FixedSalt, Iterations, KeyLength)
    ensures Decrypt(lib, NewService(lib, wrong).value, Encrypt(lib, NewService(lib, right).value, iv, time, plaintext)) == []
  {
    DecryptUnderOtherKey(lib, NewService(lib, right).value, NewService(lib, wrong).value, iv, time, plaintext);
  }

  /** The salt and the iteration count are constants, so a service built
      later from the same master password (after locking and logging in
      again, or for another vault) reads what an earlier one wrote. */
  lemma SameMasterPasswordReads(lib: Library, earlier: string, later: string,
                                iv: seq<byte>, time: int, plaintext: string)
    requires Sound(lib) && earlier == later
    ensures Decrypt(lib, NewService(lib, later).value, Encrypt(lib, NewService(lib, earlier).value, iv, time, plaintext)) == plaintext
  {
    DecryptEncrypt(lib, NewService(lib, earlier).value, iv, time, plaintext);
  }
}
