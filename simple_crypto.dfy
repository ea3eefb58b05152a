/**
 * The `SimpleCrypto` object of smartContract/Contract.js: an XOR stream cipher
 * over UTF-16 code units in which position i is also mixed with the ciphertext
 * unit `blocksize` positions earlier.
 */
module SimpleCrypto {

  import opened JsText

  /**
   * `key.charCodeAt(i % key.length)` as an operand of `^`. With an empty key the
   * index is NaN, `charCodeAt` yields NaN and `^` reads NaN as 0.
   */
  function KeyAt(key: Text, i: nat): CodeUnit
  {
    if |key| == 0 then 0 else key[i % |key|]
  }

  /** The units the key contributes to the first n positions. */
  function Keystream(key: Text, n: nat): (ks: Text)
    ensures |ks| == n
    ensures forall i :: 0 <= i < n ==> ks[i] == KeyAt(key, i)
  {
    seq(n, i requires 0 <= i < n => KeyAt(key, i))
  }

  /**
   * The feedback unit `encrypt` mixes in at position i, given the output `out`
   * built so far: `result.charCodeAt(i - b)` once `result.length >= b`. With
   * b == 0 that read is one past the end, NaN, which `^` reads as 0.
   */
  function EncryptFeedback(out: Text, i: nat, b: nat): CodeUnit
  {
    if b <= i && i - b < |out| then out[i - b] else 0
  }

  /** What `encrypt` returns: unit i is plaintext XOR feedback from the output XOR key. */
  function Encrypted(message: Text, key: Text, b: nat): (c: Text)
    ensures |c| == |message|
    decreases |message|
  {
    if message == [] then []
    else
      var i := |message| - 1;
      var prefix := Encrypted(message[..i], key, b);
      prefix + [Xor16(Xor16(message[i], EncryptFeedback(prefix, i, b)), KeyAt(key, i))]
  }

  /** Unit i of what `decrypt` returns: ciphertext XOR key XOR, once i >= b, the input unit at i - b. */
  function DecryptedAt(ctext: Text, key: Text, b: nat, i: nat): CodeUnit
    requires i < |ctext|
  {
    Xor16(Xor16(ctext[i], KeyAt(key, i)), if b <= i then ctext[i - b] else 0)
  }

  /** What `decrypt` returns. */
  function Decrypted(ctext: Text, key: Text, b: nat): (m: Text)
    ensures |m| == |ctext|
    decreases |ctext|
  {
    if ctext == [] then []
    else
      var i := |ctext| - 1;
      Decrypted(ctext[..i], key, b) + [DecryptedAt(ctext, key, b, i)]
  }

  /** A unit of `decrypt` depends only on the input up to that position. */
  lemma DecryptedAtPrefix(ctext: Text, key: Text, b: nat, i: nat, j: nat)
    requires i < j <= |ctext|
    ensures DecryptedAt(ctext[..j], key, b, i) == DecryptedAt(ctext, key, b, i)
  {
  }

  /** Encrypting a prefix yields the prefix of the ciphertext. */
  lemma {:induction false} EncryptedPrefix(message: Text, key: Text, b: nat, j: nat)
    requires j <= |message|
    ensures Encrypted(message[..j], key, b) == Encrypted(message, key, b)[..j]
    decreases |message|
  {
    if j < |message| {
      var i := |message| - 1;
      assert message[..i][..j] == message[..j];
      EncryptedPrefix(message[..i], key, b, j);
    } else {
      assert message[..j] == message;
    }
  }

  /** Decrypting a prefix yields the prefix of the plaintext. */
  lemma {:induction false} DecryptedPrefix(ctext: Text, key: Text, b: nat, j: nat)
    requires j <= |ctext|
    ensures Decrypted(ctext[..j], key, b) == Decrypted(ctext, key, b)[..j]
    decreases |ctext|
  {
    if j < |ctext| {
      var i := |ctext| - 1;
      assert ctext[..i][..j] == ctext[..j];
      DecryptedPrefix(ctext[..i], key, b, j);
    } else {
      assert ctext[..j] == ctext;
    }
  }

  /** The recurrence `encrypt` computes, stated on the whole ciphertext. */
  lemma EncryptedAt(message: Text, key: Text, b: nat, i: nat)
    requires i < |message|
    ensures var c := Encrypted(message, key, b);
      c[i] == Xor16(Xor16(message[i], if 0 < b <= i then c[i - b] else 0), KeyAt(key, i))
  {
    EncryptedPrefix(message, key, b, i + 1);
    EncryptedPrefix(message, key, b, i);
    assert message[..i + 1][..i] == message[..i];
  }

  /** Unit i of the decryption of the whole input. */
  lemma DecryptedIndex(ctext: Text, key: Text, b: nat, i: nat)
    requires i < |ctext|
    ensures Decrypted(ctext, key, b)[i] == DecryptedAt(ctext, key, b, i)
  {
    DecryptedPrefix(ctext, key, b, i + 1);
    DecryptedAtPrefix(ctext, key, b, i, i + 1);
    assert ctext[..i + 1][..i] == ctext[..i];
  }

  /** For b >= 1, decrypting a ciphertext recovers the plaintext it was made from. */
  lemma DecryptInvertsEncrypt(message: Text, key: Text, b: nat)
    requires b >= 1
    ensures Decrypted(Encrypted(message, key, b), key, b) == message
  {
    var c := Encrypted(message, key, b);
    forall i | 0 <= i < |message|
      ensures Decrypted(c, key, b)[i] == message[i]
    {
      EncryptedAt(message, key, b, i);
      DecryptedIndex(c, key, b, i);
      var f, k := if b <= i then c[i - b] else 0, KeyAt(key, i);
      Xor16Cancel(Xor16(message[i], f), k);
      Xor16Cancel(message[i], f);
    }
  }

  /** The last step of EncryptInvertsDecrypt: one unit of `encrypt` undoes one unit of `decrypt`. */
  lemma EncryptUndoesDecryptAt(ctext: Text, key: Text, b: nat, i: nat)
    requires b >= 1 && i < |ctext|
    ensures Xor16(Xor16(DecryptedAt(ctext, key, b, i), EncryptFeedback(ctext[..i], i, b)), KeyAt(key, i)) == ctext[i]
  {
    var f, k := if b <= i then ctext[i - b] else 0, KeyAt(key, i);
    assert EncryptFeedback(ctext[..i], i, b) == f;
    Xor16Cancel(Xor16(ctext[i], k), f);
    Xor16Cancel(ctext[i], k);
  }

  /** The last unit of a ciphertext, from the ciphertext of the rest. */
  lemma EncryptedLast(message: Text, key: Text, b: nat)
    requires message != []
    ensures var i := |message| - 1;
      Encrypted(message, key, b)
        == Encrypted(message[..i], key, b) + [Xor16(Xor16(message[i], EncryptFeedback(Encrypted(message[..i], key, b), i, b)), KeyAt(key, i))]
  {
  }

  /** For b >= 1, encrypting a decryption gives the ciphertext back: the cipher is a bijection on texts of each length. */
  lemma {:induction false} EncryptInvertsDecrypt(ctext: Text, key: Text, b: nat)
    requires b >= 1
    ensures Encrypted(Decrypted(ctext, key, b), key, b) == ctext
    decreases |ctext|
  {
    if ctext != [] {
      var i := |ctext| - 1;
      var d := Decrypted(ctext, key, b);
      DecryptedPrefix(ctext, key, b, i);
      DecryptedIndex(ctext, key, b, i);
      EncryptInvertsDecrypt(ctext[..i], key, b);
      EncryptUndoesDecryptAt(ctext, key, b, i);
      EncryptedLast(d, key, b);
      assert ctext[..i] + [ctext[i]] == ctext;
    }
  }

  /** Before the feedback window fills, `encrypt` XORs with the key only. */
  lemma EncryptKeyOnlyBeforeWindow(message: Text, key: Text, b: nat, i: nat)
    requires i < |message| && i < b
    ensures Encrypted(message, key, b)[i] == Xor16(message[i], KeyAt(key, i))
  {
    EncryptedAt(message, key, b, i);
    Xor16Zero(message[i]);
  }

  /** Before the feedback window fills, `decrypt` XORs with the key only. */
  lemma DecryptKeyOnlyBeforeWindow(ctext: Text, key: Text, b: nat, i: nat)
    requires i < |ctext| && i < b
    ensures Decrypted(ctext, key, b)[i] == Xor16(ctext[i], KeyAt(key, i))
  {
    DecryptedIndex(ctext, key, b, i);
    Xor16Zero(Xor16(ctext[i], KeyAt(key, i)));
  }

  /**
   * With a block size of 0 the round trip fails: `decrypt` XORs each ciphertext
   * unit with itself, so what comes back is the keystream, whatever was sent.
   */
  lemma ZeroBlockSizeYieldsKeystream(message: Text, key: Text)
    ensures Decrypted(Encrypted(message, key, 0), key, 0) == Keystream(key, |message|)
  {
    var c := Encrypted(message, key, 0);
    forall i | 0 <= i < |message|
      ensures Decrypted(c, key, 0)[i] == KeyAt(key, i)
    {
      DecryptedIndex(c, key, 0, i);
      Xor16Commutes(c[i], KeyAt(key, i));
      Xor16Cancel(KeyAt(key, i), c[i]);
    }
  }

  /** The smallest witness that the inverse law needs b >= 1: the one-unit message [1] comes back as [0]. */
  lemma ZeroBlockSizeBreaksInverse()
    ensures Decrypted(Encrypted([1], [], 0), [], 0) == [0]
  {
    ZeroBlockSizeYieldsKeystream([1], []);
  }

  /** `encrypt`: the loop of smartContract/Contract.js, appending one unit per step. */
  method Encrypt(message: Text, key: Text, blocksize: nat) returns (result: Text)
    ensures result == Encrypted(message, key, blocksize)
  {
    result := [];
    var i := 0;
    while i < |message|
      invariant 0 <= i <= |message|
      invariant result == Encrypted(message[..i], key, blocksize)
    {
      var ch := message[i];
      if |result| >= blocksize {
        // `result.charCodeAt(i - blocksize)`: NaN, hence 0, when it reads past the end
        ch := Xor16(ch, if i - blocksize < |result| then result[i - blocksize] else 0);
      } else {
        Xor16Zero(ch);
      }
      ch := Xor16(ch, KeyAt(key, i));
      assert message[..i + 1][..i] == message[..i];
      result := result + [ch];
      i := i + 1;
    }
    assert message[..i] == message;
  }

  /** `decrypt`: the loop of smartContract/Contract.js, feeding back the input. */
  method Decrypt(ctext: Text, key: Text, blocksize: nat) returns (result: Text)
    ensures result == Decrypted(ctext, key, blocksize)
  {
    result := [];
    var i := 0;
    while i < |ctext|
      invariant 0 <= i <= |ctext|
      invariant result == Decrypted(ctext[..i], key, blocksize)
    {
      var ch := Xor16(ctext[i], KeyAt(key, i));
      if |result| >= blocksize {
        ch := Xor16(ch, ctext[i - blocksize]);
      } else {
        Xor16Zero(ch);
      }
      DecryptedAtPrefix(ctext, key, blocksize, i, i + 1);
      assert ctext[..i + 1][..i] == ctext[..i];
      result := result + [ch];
      i := i + 1;
    }
    assert ctext[..i] == ctext;
  }
}
