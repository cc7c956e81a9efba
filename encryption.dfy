/**
 * Field encryption: the module global that caches the cipher, and the two wrappers the routes call.
 * The cipher itself (`cryptography.fernet.Fernet`) is a foreign library; the model sees an instance
 * as the pair of its operations and relies on one guarantee of it, `Authenticated`.
 */
module Encryption {
  import opened Wrappers
  import Utf8

  /** What makes two encryptions of one plaintext differ: the random IV and the clock reading in the token. */
  datatype Nonce = Nonce(iv: Bytes, timestamp: int)

  /** A Fernet instance: `encrypt`, and `decrypt`, which is None where the library raises InvalidToken. */
  datatype Fernet = Fernet(encrypt: (Bytes, Nonce) -> Bytes, decrypt: Bytes -> Option<Bytes>)

  /** The authenticated-encryption guarantee: tokens are never empty and decrypt to exactly their plaintext. */
  ghost predicate Authenticated(f: Fernet) {
    forall p, n :: |f.encrypt(p, n)| > 0 && f.decrypt(f.encrypt(p, n)) == Some(p)
  }

  /** `Fernet(key)`: None where the constructor raises (a key that does not decode to 32 bytes). */
  type KeyLoader = Bytes -> Option<Fernet>

  /** Every instance the library builds is an authenticated cipher. */
  ghost predicate SoundLoader(load: KeyLoader) {
    forall k :: load(k).Some? ==> Authenticated(load(k).value)
  }

  /** The placeholder `decrypt_text` returns for a token the cipher rejects. */
  const DecryptionFailed := "[decryption failed]"

  /** `encrypt_text(text)` once `get_fernet()` has returned `f`. */
  function EncryptWith(f: Option<Fernet>, text: Option<string>, n: Nonce): (r: Option<Bytes>)
    ensures r.None? <==> f.None? || text.None?
  {
    if f.None? || text.None? then None else Some(f.value.encrypt(Utf8.Encode(text.value), n))
  }

  /** `decrypt_text(token)` once `get_fernet()` has returned `f`. */
  function DecryptWith(f: Option<Fernet>, token: Option<Bytes>): (r: Outcome<string>)
    ensures f.None? || token.None? || token.value == [] ==> r == Returned("")
    ensures r.Raised? ==> r.error == UnicodeDecodeError
    ensures f.Some? && token.Some? && token.value != [] && f.value.decrypt(token.value).None? ==>
              r == Returned(DecryptionFailed)
  {
    if f.None? || token.None? || token.value == [] then Returned("")
    else match f.value.decrypt(token.value)
      case None => Returned(DecryptionFailed)
      case Some(plain) =>
        match Utf8.Decode(plain)
        case None => Raised(UnicodeDecodeError)
        case Some(s) => Returned(s)
  }

  /** With a cipher configured, decrypting what `encrypt_text` stored gives back the text, for every text. */
  lemma TextRoundTrip(f: Fernet, t: string, n: Nonce)
    requires Authenticated(f)
    ensures EncryptWith(Some(f), Some(t), n).Some?
    ensures DecryptWith(Some(f), EncryptWith(Some(f), Some(t), n)) == Returned(t)
  {
    Utf8.DecodeEncode(t);
  }

  /** An invalid token never raises: only a token the cipher accepts can lead to an exception. */
  lemma OnlyAuthenticTokensRaise(f: Option<Fernet>, token: Option<Bytes>)
    ensures DecryptWith(f, token).Raised? ==>
              f.Some? && token.Some? && f.value.decrypt(token.value).Some?
              && Utf8.Decode(f.value.decrypt(token.value).value).None?
  {
  }

  /** What `get_fernet()` returns together with the new value of the module global. */
  datatype Resolution = Resolution(outcome: Outcome<Option<Fernet>>, cache: Option<Fernet>)

  /**
   * `get_fernet()` with `_fernet == cached` and `ENCRYPTION_KEY` set to `envKey`: a cached instance is
   * returned as it is; otherwise a non-empty key is loaded (and cached), and a malformed one raises.
   */
  function Resolve(cached: Option<Fernet>, load: KeyLoader, envKey: Bytes): (r: Resolution)
    ensures cached.Some? ==> r == Resolution(Returned(cached), cached)
    ensures envKey == [] ==> r.cache == cached && r.outcome == Returned(cached)
    ensures cached.None? && envKey != [] && load(envKey).Some? ==> r == Resolution(Returned(load(envKey)), load(envKey))
    ensures cached.None? && envKey != [] && load(envKey).None? ==> r == Resolution(Raised(ValueError), None)
    ensures r.outcome.Returned? ==> r.outcome.value == r.cache
    ensures r.outcome.Raised? ==> r.cache.None? && r.outcome.error == ValueError
  {
    if cached.Some? then Resolution(Returned(cached), cached)
    else if envKey == [] then Resolution(Returned(None), None)
    else match load(envKey)
      case Some(f) => Resolution(Returned(Some(f)), Some(f))
      case None => Resolution(Raised(ValueError), None)
  }

  /** Calling `get_fernet()` again, with the same environment, gives the same answer and changes nothing more. */
  lemma ResolveIdempotent(cached: Option<Fernet>, load: KeyLoader, envKey: Bytes)
    ensures var first := Resolve(cached, load, envKey);
            Resolve(first.cache, load, envKey) == first
  {
  }

  /**
   * The module `encryption` with its globals: `load` is the Fernet constructor, `fernet` is `_fernet`,
   * and the ghost `key` remembers the key the cached instance was built from.
   */
  class KeyCache {
    const load: KeyLoader
    var fernet: Option<Fernet>
    ghost var key: Bytes

    ghost predicate Valid()
      reads this
    {
      fernet.Some? ==> key != [] && load(key) == fernet
    }

    /** Import of the module: a non-empty key is loaded, and a constructor that raises leaves `_fernet` None. */
    constructor Import(load: KeyLoader, envKey: Bytes)
      ensures Valid() && this.load == load
      ensures fernet == (if envKey == [] then None else load(envKey))
    {
      this.load := load;
      key := envKey;
      if envKey != [] {
        fernet := load(envKey);
      } else {
        fernet := None;
      }
    }

    /** `get_fernet()`: the cached instance, else one built from the key the environment holds now. */
    method GetFernet(envKey: Bytes) returns (r: Outcome<Option<Fernet>>)
      requires Valid()
      modifies this
      ensures Valid()
      ensures r == Resolve(old(fernet), load, envKey).outcome
      ensures fernet == Resolve(old(fernet), load, envKey).cache
      ensures old(fernet).Some? ==> unchanged(this)
      ensures SoundLoader(load) && r.Returned? && r.value.Some? ==> Authenticated(r.value.value)
    {
      if fernet.None? {
        if envKey != [] {
          var loaded := load(envKey);
          if loaded.None? {
            return Raised(ValueError);
          }
          fernet := loaded;
          key := envKey;
        }
      }
      r := Returned(fernet);
    }

    /** `encrypt_text(text)`. */
    method EncryptText(envKey: Bytes, text: Option<string>, n: Nonce) returns (r: Outcome<Option<Bytes>>)
      requires Valid()
      modifies this
      ensures Valid()
      ensures var res := Resolve(old(fernet), load, envKey);
              fernet == res.cache
              && r == (if res.outcome.Raised? then Raised(res.outcome.error)
                       else Returned(EncryptWith(res.outcome.value, text, n)))
    {
      var f := GetFernet(envKey);
      if f.Raised? {
        return Raised(f.error);
      }
      r := Returned(EncryptWith(f.value, text, n));
    }

    /** `decrypt_text(token)`. */
    method DecryptText(envKey: Bytes, token: Option<Bytes>) returns (r: Outcome<string>)
      requires Valid()
      modifies this
      ensures Valid()
      ensures var res := Resolve(old(fernet), load, envKey);
              fernet == res.cache
              && r == (if res.outcome.Raised? then Raised(res.outcome.error) else DecryptWith(res.outcome.value, token))
    {
      var f := GetFernet(envKey);
      if f.Raised? {
        return Raised(f.error);
      }
      r := DecryptWith(f.value, token);
    }
  }

  /** With a sound library, a cached instance is an authenticated cipher, so the round trip applies to it. */
  lemma CachedCipherAuthenticated(load: KeyLoader, envKey: Bytes, cached: Option<Fernet>)
    requires SoundLoader(load)
    requires cached.Some? ==> Authenticated(cached.value)
    ensures var r := Resolve(cached, load, envKey);
            r.cache.Some? ==> Authenticated(r.cache.value)
  {
  }
}
