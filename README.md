# Tardis contract in Dafny

A Dafny model of `TardisContract`, a smart contract that stores time-locked
messages, and of the `SimpleCrypto` cipher it uses (`smartContract/Contract.js`).

The contract works like this:

- A sender asks the contract for a per-address key (`generateKey`, `getKey`).
- The sender encrypts a message off-chain with `SimpleCrypto.encrypt`, then submits the ciphertext with a release time (`addMessage`).
- The contract decrypts the ciphertext with the stored key. It archives the plaintext under an id drawn from its own generator, and indexes the record by id and by sender.
- Readers query the archive (`getMessageById`, `getLastMessageId`, `filterByAddress`, `getRecentMessages`). A record's text is hidden until its release time, and private records are hidden from other addresses.

Layout, one module per file:

- `wrappers.dfy`: `Option` and `Result`.
- `bits.dfy`: bitwise XOR on non-negative integers and its algebra.
- `js_text.dfy`: strings as sequences of UTF-16 code units, and `^` on code units.
- `js_number.dfy`: the JavaScript Number operations the contract uses.
  - ToInt32 and ToUint32.
  - `^`, `<<` and `>>` on 32-bit words.
  - `Math.abs`.
  - `toString(36)`, with a parser for it.
- `simple_crypto.dfy`: the cipher.
  - Specification functions `Encrypted` and `Decrypted`.
  - The loop methods `Encrypt` and `Decrypt`, proved equal to those functions.
  - The inverse laws.
- `rng.dfy`: the generator step `_random`, and the specification of `_generateKey`.
- `keys.dfy`: key records, the key-length rule, and the expiry computed by `setSeconds`.
- `archive.dfy`: message records, the two indices as functions of the archive, and reference definitions of what the read queries return.
- `contract.dfy`: the class `TardisContract`.
  - Its fields are the storage maps. Its invariant `Valid` ties both indices to the archive.
  - Each contract entry point is a method or function, proved against the specifications above.

How JavaScript semantics are represented:

- The host globals are parameters: `caller` stands for `Blockchain.transaction.from`, and `now` for `new Date().getTime()`.
- A thrown error is an `Err` result. A call that throws leaves every field as it was, because the host discards the writes of a failed transaction.
- A missing or falsy numeric argument is `0`, and a missing `cnt` is `None`.
- The empty object `{}` that `getKey` and `getMessageById` return is `None`.

## Model

| member | source | states |
|---|---|---|
| Bits.XorCommutes | smartContract/Contract.js:18 | `^` on non-negative integers is commutative |
| Bits.XorAssociates | smartContract/Contract.js:18-19 | `^` is associative, so a chain of XORs can be regrouped |
| Bits.XorSelf | smartContract/Contract.js:19 | `a ^ a == 0` |
| Bits.XorZero | smartContract/Contract.js:9 | `a ^ 0 == a` |
| Bits.XorCancel | smartContract/Contract.js:18-19 | XOR with the same operand twice gives back the first operand |
| Bits.XorBound | smartContract/Contract.js:10 | operands of `width` bits give a result of `width` bits, so `^` of two code units is a code unit |
| JsText.Xor16Cancel | smartContract/Contract.js:9-10 | on code units, `(a ^ b) ^ b == a` |
| JsText.Xor16Commutes | smartContract/Contract.js:9-10 | on code units, `a ^ b == b ^ a` |
| JsText.Xor16Zero | smartContract/Contract.js:9 | XOR with 0 (what NaN becomes under `^`) leaves a code unit unchanged |
| JsNumber.ToUint32 | smartContract/Contract.js:66-67 | ToUint32 of any integer is a 32-bit pattern below 2^32 |
| JsNumber.FromUint32 | smartContract/Contract.js:66-67 | reading a 32-bit pattern as a signed int32 gives an int32 whose ToUint32 is that pattern |
| JsNumber.ToInt32Congruent | smartContract/Contract.js:66-67 | ToInt32 lands on a value congruent to its argument modulo 2^32 and keeps int32 values unchanged |
| JsNumber.Xor | smartContract/Contract.js:66-67 | `a ^ b` on Numbers is an int32 |
| JsNumber.XorTwice | smartContract/Contract.js:66-67 | `(a ^ b) ^ b == ToInt32(a)`: `^` wraps its operands to 32 bits |
| JsNumber.XorWraps | smartContract/Contract.js:66-67 | `^` depends only on the int32 values of its operands |
| JsNumber.XorCommutes | smartContract/Contract.js:67 | `^` on Numbers is commutative |
| JsNumber.ShiftLeft | smartContract/Contract.js:66 | `a << k` is an int32 |
| JsNumber.ShiftRight | smartContract/Contract.js:67 | `a >> k` is an int32, and it is negative exactly when ToInt32(a) is negative (an arithmetic shift) |
| JsNumber.DivisionBounds | smartContract/Contract.js:67 | floor division by a positive power keeps the sign and does not grow the magnitude |
| JsNumber.Abs | smartContract/Contract.js:88 | `Math.abs(v)` is `v` or `-v`, and never negative |
| JsNumber.Digits36 | smartContract/Contract.js:75 | the base-36 digits of n are at least one digit from `0-9a-z`, and for n >= 36 the first digit is not `0` |
| JsNumber.ToString36 | smartContract/Contract.js:75 | `v.toString(36)` is non-empty, uses only digits and `-`, and starts with `-` exactly when v is negative |
| JsNumber.DigitsRoundTrip | smartContract/Contract.js:75 | reading back the base-36 digits of n gives n |
| JsNumber.ToString36RoundTrip | smartContract/Contract.js:75 | parsing `v.toString(36)` gives back v, so the rendering loses nothing |
| SimpleCrypto.Keystream | smartContract/Contract.js:10 | the keystream of n units has unit i equal to the key unit `encrypt` uses at position i, for every i < n |
| SimpleCrypto.Encrypted | smartContract/Contract.js:5-14 | `encrypt` returns a text as long as the message |
| SimpleCrypto.Decrypted | smartContract/Contract.js:15-23 | `decrypt` returns a text as long as the ciphertext |
| SimpleCrypto.EncryptedAt | smartContract/Contract.js:8-11 | ciphertext unit i is message unit i XOR the ciphertext unit b places back (none when b is 0 or i < b) XOR the key unit |
| SimpleCrypto.EncryptedPrefix | smartContract/Contract.js:7-11 | encrypting a prefix of a message gives the same prefix of the ciphertext |
| SimpleCrypto.DecryptedPrefix | smartContract/Contract.js:17-21 | decrypting a prefix gives the same prefix of the plaintext |
| SimpleCrypto.DecryptedIndex | smartContract/Contract.js:18-19 | plaintext unit i is ciphertext unit i XOR key unit XOR, once i >= b, ciphertext unit i - b |
| SimpleCrypto.DecryptInvertsEncrypt | smartContract/Contract.js:5-23 | for every message and key (an empty key included) and every b >= 1, `decrypt(encrypt(m, k, b), k, b) == m` |
| SimpleCrypto.EncryptInvertsDecrypt | smartContract/Contract.js:5-23 | for b >= 1, `encrypt(decrypt(c, k, b), k, b) == c`, so every ciphertext comes from exactly one plaintext |
| SimpleCrypto.EncryptKeyOnlyBeforeWindow | smartContract/Contract.js:9-10 | the first min(b, |m|) ciphertext units are the message XOR the key only |
| SimpleCrypto.DecryptKeyOnlyBeforeWindow | smartContract/Contract.js:18-19 | the first min(b, |c|) plaintext units are the ciphertext XOR the key only |
| SimpleCrypto.ZeroBlockSizeYieldsKeystream | smartContract/Contract.js:19 | with b = 0 decrypt XORs each unit with itself: the round trip yields the keystream, whatever the message |
| SimpleCrypto.ZeroBlockSizeBreaksInverse | smartContract/Contract.js:19 | with b = 0 and an empty key, the message [1] comes back as [0] |
| SimpleCrypto.Encrypt | smartContract/Contract.js:5-14 | the `encrypt` loop computes `Encrypted` |
| SimpleCrypto.Decrypt | smartContract/Contract.js:15-23 | the `decrypt` loop computes `Decrypted` |
| Rng.Next | smartContract/Contract.js:62-70 | one step stores the old `seed[1]` unwrapped as `seed[0]`, leaves an int32 in `seed[1]`, and returns the new `seed[1]` plus the old one |
| Rng.AdvanceAdds | smartContract/Contract.js:62-70 | n draws after m draws are m + n draws from the same state |
| Rng.StateIsInt32AfterTwoDraws | smartContract/Contract.js:65-67 | after two draws both seed words are int32, whatever the seed was |
| Rng.FirstDrawUnwrapped | smartContract/Contract.js:62-70 | from a seed in `init`'s range the first draw exceeds 2^32 and differs from the value a 32-bit `y` would give |
| Rng.Rendered | smartContract/Contract.js:75 | the text of k draws is at least k units long and uses only base-36 digits and `-` |
| Rng.Accumulate | smartContract/Contract.js:74-75 | the loop ends with text of at least `length` units: the rendered draws appended to the start text. It draws nothing when the start text is long enough, and the last draw is the first to reach `length` |
| Rng.AccumulateFromEmpty | smartContract/Contract.js:74-75 | from the empty text the loop draws at least once exactly when `length >= 1`, and its text is the rendered draws |
| Rng.KeyGen | smartContract/Contract.js:73-77 | `_generateKey(n)` is exactly max(n - 1, 0) units of digits and `-`, cut from the draws' renderings. It uses the fewest draws that reach n units (at least 1 and at most n when n >= 1) and leaves the state advanced by that many draws |
| Keys.NormalisedLength | smartContract/Contract.js:157 | the key length is the request unless it is 0 or above 10000, in which case it is 1024; never 0 and never above 10000 |
| Keys.Expiry | smartContract/Contract.js:160-163 | the expiry keeps the milliseconds of `now`, lies between `now + 1000·keyExpires − 59000` and `now + 1000·keyExpires`, and minus the lifetime falls on a whole minute |
| Keys.ShownAndUsableDiffer | smartContract/Contract.js:169-174 | a shown key is usable, and a key is usable but not shown exactly when it expires at `now` |
| Keys.FreshKeyShown | smartContract/Contract.js:160-163 | a key made at `now` with a lifetime of a minute or more is shown by `getKey` at `now` |
| Archive.IdIndexFindsNewest | smartContract/Contract.js:100 | an id is indexed exactly when some record carries it, and it points at the newest such record (a colliding id overwrites) |
| Archive.Positions | smartContract/Contract.js:98-99 | every listed position lies inside the archive |
| Archive.PositionsExact | smartContract/Contract.js:98-99 | the positions of a sender are exactly the records it sent, in increasing order |
| Archive.AddressIndexIsPositions | smartContract/Contract.js:87-101 | a sender is indexed exactly when it sent something, and its list is its positions, oldest first |
| Archive.Listed | smartContract/Contract.js:132-136 | reversing and mapping a position list gives one record per position |
| Archive.Public | smartContract/Contract.js:137 | the filtered records are all non-private and no more than the input |
| Archive.PublicAppends | smartContract/Contract.js:137 | filtering a concatenation filters each part |
| Archive.PublicMembers | smartContract/Contract.js:137 | a record survives the filter exactly when it is in the input and not private |
| Archive.ListedIsAddressView | smartContract/Contract.js:126-139 | reversing the sender's positions, masking, and filtering for a stranger gives the sender's records newest first, private ones kept only for the sender |
| Archive.AddressViewShowsOnlyTheSender | smartContract/Contract.js:132-137 | every record in the view was sent by the address, is not private when a stranger asks, and has empty text before its release |
| Archive.AddressViewCount | smartContract/Contract.js:128-136 | the sender's own view holds one record per message it sent |
| Archive.NewestPosition | smartContract/Contract.js:123 | the last entry of a sender's list is its newest record |
| Archive.ReleasedMembers | smartContract/Contract.js:146-151 | a record is listed exactly when it is in the archive, not skipped, and released at `now` |
| Archive.ReleasedSplits | smartContract/Contract.js:146 | the newer part of the archive comes first in the listing |
| Archive.ReleasedStep | smartContract/Contract.js:146-151 | scanning one record further back appends it when it is listable |
| Archive.NewestUnskipped | smartContract/Contract.js:148-152 | finds the newest record the scan does not skip; every later one is skipped |
| Archive.Recent | smartContract/Contract.js:141-155 | without `cnt`, every listable record newest first. With `cnt >= 1`, at most `cnt` of them. With `cnt <= 0`, at most one record |
| Archive.RecentIsListable | smartContract/Contract.js:148-151 | every record returned is in the archive, released, and visible to the caller |
| Contract.TardisContract.Init | smartContract/Contract.js:45-53 | `init` leaves an empty archive and indices, no keys, the given seed, and the invariant |
| Contract.TardisContract.Random | smartContract/Contract.js:62-70 | `_random` stores and returns exactly the step `Next` of the old seed |
| Contract.TardisContract.GenerateKeyString | smartContract/Contract.js:73-77 | the `_generateKey` loop returns `KeyGen`'s text and leaves its state |
| Contract.TardisContract.GetKey | smartContract/Contract.js:169-174 | returns the caller's key exactly when one is stored and its expiry is after `now` |
| Contract.TardisContract.GenerateKey | smartContract/Contract.js:156-167 | replaces only the caller's key, and only when asked to, when none exists, or when it expired before `now`, with a fresh `KeyGen` key and `Expiry` time. Otherwise nothing changes. Always returns true. Afterwards the caller holds a usable key, hidden from `getKey` only when a kept key expires exactly at `now` |
| Contract.TardisContract.DecryptMessage | smartContract/Contract.js:55-60 | fails exactly when the caller has no key or it expired before `now`; otherwise returns the plaintext, which encrypts back to the message |
| Contract.TardisContract.AddMessage | smartContract/Contract.js:79-106 | error order (release time before `now`, then empty message, then no usable key), with no field changed on failure. On success the seed advances one step; one record is appended holding the decrypted text, `now` and the id `|draw|`; the id maps to the old length; only the sender's list gains the old length. Returns the ciphertext record with a null id, and `getLastMessageId` then gives the new id |
| Contract.TardisContract.Append | smartContract/Contract.js:97-102 | the archive and index writes keep both indices consistent with the archive |
| Contract.TardisContract.GetMessageById | smartContract/Contract.js:108-117 | fails exactly on id 0; returns nothing exactly when no record carries the id; otherwise returns the newest record with that id, text blanked before release |
| Contract.TardisContract.GetLastMessageId | smartContract/Contract.js:119-124 | null exactly when the caller sent nothing, otherwise the id of the caller's newest record |
| Contract.TardisContract.FilterByAddress | smartContract/Contract.js:126-139 | fails exactly on the empty address, otherwise returns `AddressView`: the address's records newest first, masked for every caller, private ones only for the address itself |
| Contract.TardisContract.GetRecentMessages | smartContract/Contract.js:141-155 | the scan with `continue` and `break` returns `Recent` and changes nothing |

## Left out

- Host persistence is not modelled: `LocalContractStorage` and the JSON codec of the archive. The storage maps are plain fields.
- The caller and the clock are parameters, so calls into `Blockchain` and `Date` are not modelled.
- `init`'s `Math.random` seeding is left out because it is floating-point and nondeterministic. `TardisContract.Init` takes the two seeds instead, within `randomInRange`'s bounds. `keyExpires` (86400) and `cryptBlockSize` (5) are fixed as `init` sets them.
- Host transaction rollback: `addMessage` writes the seed before the key check can throw. The model restores the seed on that path, as the host does when it discards a failed call.
- `Contract.TardisContract.GenerateKey`: the expiry follows only the `setSeconds` arithmetic. Time clipping and local-time rules of `Date` are not modelled. This assumes a time zone whose offset is a whole number of minutes.
- Arguments that are not integral Numbers are not modelled: `undefined` or string release times, fractional key lengths, and non-string messages. Message ids and timestamps are integers.
- `echo` is not modelled; it only returns the caller.
- `JsNumber.ShiftLeft`: only the int32 range is stated, not the bit pattern of `a << k`. The definition computes it, but no lemma relates it to the bits of `a`.
- `Rng.Next`: no statistical property of the generator is stated. The contract relies on none.

## Where the code and the design notes differ

The model follows the code in each case.

- The design notes state the cipher inverse for every block size b >= 0. In the code, b = 0 makes `decrypt` XOR each unit with itself, so the law needs b >= 1 (`SimpleCrypto.ZeroBlockSizeYieldsKeystream`, `SimpleCrypto.ZeroBlockSizeBreaksInverse`). The contract uses b = 5.
- The design notes say `encrypt` feeds back the plaintext. The code feeds back the ciphertext produced so far, which is the unit `decrypt` reads from its input, so the two directions still agree.
- The design notes say a new key expires `keyExpires` seconds after `now`. The code sets the seconds field with `setSeconds`, so a key can expire up to 59 seconds earlier than that (`Keys.Expiry`).
- The design notes exempt the owner from `filterByAddress`'s masking. The code masks pre-release text for every caller.
- The design notes say `filterByAddress` reverses the stored index. The code reverses a parsed copy and never writes it back, so all four queries leave state unchanged.
