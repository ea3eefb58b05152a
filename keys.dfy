/**
 * Encryption keys as the contract stores them per address: the key text and
 * its expiry time, the length rule of `generateKey`, and the expiry that
 * `Date.prototype.setSeconds` produces.
 */
module Keys {

  import opened JsText

  /** A `keyStorage` entry `{value, expires}`; `expires` is in milliseconds since the epoch. */
  datatype KeyRecord = KeyRecord(value: Text, expires: int)

  const DefaultKeyLength: int := 1024
  const MaxKeyLength: int := 10000

  /**
   * The length `generateKey` asks for: a missing or zero length and one above
   * 10000 become 1024, any other length (negative ones too) is kept.
   * A missing argument is passed as 0, the other falsy Number.
   */
  function NormalisedLength(requested: int): (n: int)
    ensures n != 0 && n <= MaxKeyLength
    ensures n == requested || n == DefaultKeyLength
    ensures n == requested <==> requested != 0 && requested <= MaxKeyLength
  {
    if requested == 0 || requested > MaxKeyLength then DefaultKeyLength else requested
  }

  /**
   * `now.setSeconds(keyExpires)` read back with `getTime()`: the seconds field
   * of `now` (the whole seconds since the last full minute) is replaced by
   * `keyExpires`, overflowing into minutes, hours and days, and the
   * milliseconds are kept.
   */
  function Expiry(now: int, keyExpires: int): (e: int)
    ensures e % 1000 == now % 1000
    ensures now + 1000 * keyExpires - 59_000 <= e <= now + 1000 * keyExpires
    ensures ((e - 1000 * keyExpires) / 1000) % 60 == 0
  {
    now - 1000 * ((now / 1000) % 60) + 1000 * keyExpires
  }

  /** `_decryptMessage` accepts a key unless it expired strictly before `now`. */
  predicate Usable(k: KeyRecord, now: int)
  {
    !(k.expires < now)
  }

  /** `getKey` hands a key out only while its expiry lies strictly after `now`. */
  predicate Shown(k: KeyRecord, now: int)
  {
    k.expires > now
  }

  /**
   * The two tests differ only at the boundary: a key whose expiry is exactly
   * `now` still decrypts but is no longer shown.
   */
  lemma ShownAndUsableDiffer(k: KeyRecord, now: int)
    ensures Shown(k, now) ==> Usable(k, now)
    ensures Usable(k, now) && !Shown(k, now) <==> k.expires == now
  {
  }

  /** A key made at `now` with a lifetime of at least a minute is shown at `now`. */
  lemma FreshKeyShown(now: int, keyExpires: int, value: Text)
    requires keyExpires >= 60
    ensures Shown(KeyRecord(value, Expiry(now, keyExpires)), now)
  {
  }
}
