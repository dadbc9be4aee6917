/** The credential cipher of the portal handshake (`encrypt_data`): every
    character's code point is XORed with 22 and written with Python's
    `format(x, '02X')`, i.e. upper-case hexadecimal padded to at least two
    digits. The decoder below is not part of the program; it is the reference
    inverse against which the encoder is proved. */
module Cipher {
  import opened Wrappers
  import Text

  /** The fixed XOR key of the portal protocol. */
  const Key: nat := 22

  /** Python's `a ^ b` on non-negative integers, one binary digit at a time;
      it never exceeds the sum of its operands. */
  function Xor(a: nat, b: nat): (r: nat)
    ensures r <= a + b
    decreases a + b
  {
    if a == 0 then b
    else if b == 0 then a
    else 2 * Xor(a / 2, b / 2) + (if a % 2 == b % 2 then 0 else 1)
  }

  function Pow2(k: nat): (r: nat)
    ensures r >= 1
  {
    if k == 0 then 1 else 2 * Pow2(k - 1)
  }

  /** XOR of two k-bit numbers is a k-bit number. */
  lemma {:induction false} XorBound(a: nat, b: nat, k: nat)
    requires a < Pow2(k) && b < Pow2(k)
    ensures Xor(a, b) < Pow2(k)
    decreases k
  {
    if a != 0 && b != 0 {
      XorBound(a / 2, b / 2, k - 1);
    }
  }

  /** A bit at position k or above in `a` that `b` lacks survives the XOR:
      the result stays at least 2^k. */
  lemma {:induction false} XorKeepsHigh(a: nat, b: nat, k: nat)
    requires a >= Pow2(k) && b < Pow2(k)
    ensures Xor(a, b) >= Pow2(k)
    decreases k
  {
    if k > 0 && b != 0 {
      XorKeepsHigh(a / 2, b / 2, k - 1);
    }
  }

  /** A number XORed with itself is zero. */
  lemma {:induction false} XorSelf(a: nat)
    ensures Xor(a, a) == 0
    decreases a
  {
    if a != 0 {
      XorSelf(a / 2);
    }
  }

  /** Halving `2 * q + r` for a bit `r` gives back `q` and `r`. */
  lemma Halves(q: nat, r: nat)
    requires r < 2
    ensures (2 * q + r) / 2 == q && (2 * q + r) % 2 == r
  {
  }

  /** XOR with a fixed operand undoes itself. */
  lemma {:induction false} XorInvolution(a: nat, b: nat)
    ensures Xor(Xor(a, b), b) == a
    decreases a + b
  {
    if a == 0 {
      XorSelf(b);
    } else if b != 0 {
      var q := Xor(a / 2, b / 2);
      var r := if a % 2 == b % 2 then 0 else 1;
      var x := 2 * q + r;
      assert Xor(a, b) == x;
      XorInvolution(a / 2, b / 2);
      Halves(q, r);
      if x == 0 {
        assert a / 2 == b / 2;
      } else {
        assert Xor(x, b) == 2 * Xor(q, b / 2) + (if r == b % 2 then 0 else 1);
      }
    }
  }

  /** `ord(c) ^ 22` on a code point; byte codes stay byte codes. */
  function Xor22(code: nat): (r: nat)
    ensures code < 256 ==> r < 256
  {
    var r := Xor(code, Key);
    assert code < 256 ==> r < 256 by {
      if code < 256 {
        assert Pow2(8) == 256;
        XorBound(code, Key, 8);
      }
    }
    r
  }

  /** XOR with the key is self-inverse on every code point. */
  lemma Xor22Involution(code: nat)
    ensures Xor22(Xor22(code)) == code
  {
    XorInvolution(code, Key);
  }

  /** An upper-case hexadecimal digit, `0`-`9` or `A`-`F`. */
  predicate IsHexDigit(c: char) {
    '0' <= c <= '9' || 'A' <= c <= 'F'
  }

  /** The upper-case digit of a nibble. */
  function HexDigit(d: nat): (c: char)
    requires d < 16
    ensures IsHexDigit(c)
  {
    if d < 10 then ('0' as int + d) as char else ('A' as int + (d - 10)) as char
  }

  /** Value of an upper-case hexadecimal digit, if it is one. */
  function HexValue(c: char): (r: Option<nat>)
    ensures r.Some? <==> IsHexDigit(c)
    ensures r.Some? ==> r.value < 16 && HexDigit(r.value) == c
  {
    if '0' <= c <= '9' then Some(c as int - '0' as int)
    else if 'A' <= c <= 'F' then Some(c as int - 'A' as int + 10)
    else None
  }

  /** Reading a digit back gives the nibble it was written for. */
  lemma HexValueOfDigit(d: nat)
    requires d < 16
    ensures HexValue(HexDigit(d)) == Some(d)
  {
  }

  /** Upper-case hexadecimal of `n` with no padding (Python's `format(n, 'X')`). */
  function Hex(n: nat): (r: string)
    ensures 1 <= |r|
    ensures forall k :: 0 <= k < |r| ==> IsHexDigit(r[k])
    decreases n
  {
    if n < 16 then [HexDigit(n)] else Hex(n / 16) + [HexDigit(n % 16)]
  }

  /** `format(n, '02X')`: upper-case hexadecimal, zero-padded to width two;
      at least two digits, all of them upper-case hexadecimal. */
  function Hex02(n: nat): (r: string)
    ensures |r| >= 2
    ensures forall k :: 0 <= k < |r| ==> IsHexDigit(r[k])
  {
    if n < 16 then
      var h := Hex(n);
      assert "0" + h == ['0', h[0]];
      "0" + h
    else
      assert Hex(n) == Hex(n / 16) + [HexDigit(n % 16)];
      Hex(n)
  }

  /** Below 256 the padded form is exactly two digits, high nibble first. */
  lemma Hex02Byte(n: nat)
    requires n < 256
    ensures Hex02(n) == [HexDigit(n / 16), HexDigit(n % 16)]
  {
    if n >= 16 {
      assert Hex(n / 16) == [HexDigit(n / 16)];
    }
  }

  /** From 256 on the width is not capped: the chunk grows past two digits. */
  lemma {:induction false} Hex02Wide(n: nat)
    requires n >= 256
    ensures |Hex02(n)| > 2
  {
    var m := n / 16;
    assert m >= 16;
    assert Hex(n) == Hex(m) + [HexDigit(n % 16)];
    assert |Hex(m)| >= 2 by {
      assert Hex(m) == Hex(m / 16) + [HexDigit(m % 16)];
    }
  }

  /** The output chunk for one character: hexadecimal digits only, and
      exactly two of them exactly for a character below U+0100. */
  function Chunk(c: char): (r: string)
    ensures |r| >= 2
    ensures forall k :: 0 <= k < |r| ==> IsHexDigit(r[k])
    ensures |r| == 2 <==> c as int < 256
  {
    var x := Xor22(c as int);
    assert |Hex02(x)| == 2 <==> c as int < 256 by {
      if c as int < 256 {
        Hex02Byte(x);
      } else {
        assert Pow2(8) == 256;
        XorKeepsHigh(c as int, Key, 8);
        Hex02Wide(x);
      }
    }
    Hex02(x)
  }

  /** `encrypt_data(data)` as a value: the chunks of the characters, in order.
      Built from the end, as the source's loop appends. */
  function Encrypted(data: string): (r: string)
    ensures |r| >= 2 * |data|
    ensures r == [] <==> data == []
  {
    if data == [] then [] else Encrypted(data[..|data| - 1]) + Chunk(data[|data| - 1])
  }

  /** `encrypt_data`: one pass over the characters, appending each chunk. */
  method EncryptData(data: string) returns (encrypted: string)
    ensures encrypted == Encrypted(data)
  {
    encrypted := "";
    for i := 0 to |data|
      invariant encrypted == Encrypted(data[..i])
    {
      var asciiVal := data[i] as int;
      var xorResult := Xor22(asciiVal);
      var hexStr := Hex02(xorResult);
      assert data[..i + 1][..i] == data[..i];
      encrypted := encrypted + hexStr;
    }
    assert data[..|data|] == data;
  }

  /** The empty input encrypts to the empty string. */
  lemma EncryptedEmpty()
    ensures Encrypted("") == ""
  {
  }

  /** Encryption works character by character, so it distributes over
      concatenation. */
  lemma {:induction false} EncryptedConcat(a: string, b: string)
    ensures Encrypted(a + b) == Encrypted(a) + Encrypted(b)
    decreases |b|
  {
    if b == [] {
      assert a + b == a;
    } else {
      var b', last := b[..|b| - 1], b[|b| - 1];
      var ab := a + b;
      assert ab[..|ab| - 1] == a + b';
      assert ab[|ab| - 1] == last;
      var ea, eb', c := Encrypted(a), Encrypted(b'), Chunk(last);
      calc {
        Encrypted(ab);
        Encrypted(a + b') + c;
        { EncryptedConcat(a, b'); }
        (ea + eb') + c;
        { Text.AppendAssoc(ea, eb', c); }
        ea + (eb' + c);
        ea + Encrypted(b);
      }
    }
  }

  /** Encrypting one character more at the front prepends its chunk. */
  lemma EncryptedCons(c: char, rest: string)
    ensures Encrypted([c] + rest) == Chunk(c) + Encrypted(rest)
  {
    EncryptedConcat([c], rest);
    assert Encrypted([c]) == Encrypted([]) + Chunk(c);
  }

  /** Character codes the two-digit format covers. */
  predicate IsByteText(data: string) {
    forall k :: 0 <= k < |data| ==> data[k] as int < 256
  }

  /** For byte-range input the output is exactly two characters per input
      character, and the chunk at position i is the padded upper-case hex of
      `ord(data[i]) ^ 22`. */
  lemma {:induction false} EncryptedChunks(data: string)
    requires IsByteText(data)
    ensures |Encrypted(data)| == 2 * |data|
    ensures forall i :: 0 <= i < |data| ==>
      Encrypted(data)[2 * i..2 * i + 2] == Hex02(Xor22(data[i] as int))
    decreases |data|
  {
    if data != [] {
      var init := data[..|data| - 1];
      var last := data[|data| - 1];
      assert IsByteText(init) by {
        forall k | 0 <= k < |init| ensures init[k] as int < 256 {
          assert init[k] == data[k];
        }
      }
      EncryptedChunks(init);
      var e, ei, c := Encrypted(data), Encrypted(init), Chunk(last);
      assert e == ei + c;
      assert |c| == 2 && c == Hex02(Xor22(last as int));
      forall i | 0 <= i < |data|
        ensures e[2 * i..2 * i + 2] == Hex02(Xor22(data[i] as int))
      {
        if i < |data| - 1 {
          assert data[i] == init[i];
          assert e[2 * i..2 * i + 2] == ei[2 * i..2 * i + 2];
        } else {
          assert e[2 * i..2 * i + 2] == c;
        }
      }
    }
  }

  /** A character above U+00FF yields a chunk wider than two digits, so
      the ciphertext of such text is longer than twice its length. */
  lemma WideCharChunk(c: char, rest: string)
    requires c as int >= 256
    ensures |Chunk(c)| > 2
    ensures |Encrypted([c] + rest)| > 2 * |[c] + rest|
  {
    EncryptedCons(c, rest);
  }

  /** Whatever the input, the output contains only upper-case hex digits
      (so it never contains the separators of a query string). */
  lemma {:induction false} EncryptedIsHex(data: string)
    ensures forall k :: 0 <= k < |Encrypted(data)| ==> IsHexDigit(Encrypted(data)[k])
    decreases |data|
  {
    if data != [] {
      EncryptedIsHex(data[..|data| - 1]);
    }
  }

  /** Reference decoder: read two hex digits at a time and undo the XOR. */
  function Decrypted(s: string): (r: Option<string>)
    ensures r.Some? ==> |s| == 2 * |r.value|
    decreases |s|
  {
    if s == [] then Some([])
    else if |s| < 2 || HexValue(s[0]).None? || HexValue(s[1]).None? then None
    else
      var rest := Decrypted(s[2..]);
      if rest.None? then None
      else
        var code := Xor22(16 * HexValue(s[0]).value + HexValue(s[1]).value);
        Some([code as char] + rest.value)
  }

  /** Decoding one well-formed pair in front of a decodable tail. */
  lemma DecryptedPair(c: char, tail: string)
    requires c as int < 256
    requires Decrypted(tail).Some?
    ensures Decrypted(Chunk(c) + tail) == Some([c] + Decrypted(tail).value)
  {
    var x := Xor22(c as int);
    Hex02Byte(x);
    var s := Chunk(c) + tail;
    var hi, lo := x / 16, x % 16;
    assert s[2..] == tail;
    assert s[0] == HexDigit(hi) && s[1] == HexDigit(lo);
    HexValueOfDigit(hi);
    HexValueOfDigit(lo);
    assert 16 * hi + lo == x;
    Xor22Involution(c as int);
    assert Xor22(16 * hi + lo) as char == c;
  }

  /** Round trip: for byte-range input the reference decoder recovers the
      text from `encrypt_data`'s output. */
  lemma {:induction false} DecryptEncrypted(data: string)
    requires IsByteText(data)
    ensures Decrypted(Encrypted(data)) == Some(data)
    decreases |data|
  {
    if data != [] {
      var c, rest := data[0], data[1..];
      assert data == [c] + rest;
      assert IsByteText(rest) by {
        forall k | 0 <= k < |rest| ensures rest[k] as int < 256 {
          assert rest[k] == data[k + 1];
        }
      }
      EncryptedCons(c, rest);
      DecryptEncrypted(rest);
      DecryptedPair(c, Encrypted(rest));
    }
  }

  /** Worked example: 'a' (97) XOR 22 is 119 = 0x77, so "a" encrypts to "77". */
  lemma EncryptedA()
    ensures Encrypted("a") == "77"
  {
    EncryptedCons('a', "");
    assert "a" == ['a'] + "";
    assert Xor22('a' as int) == 119 by {
      assert Xor(3, 0) == 3;
      assert Xor(6, 1) == 7;
      assert Xor(12, 2) == 14;
      assert Xor(24, 5) == 29;
      assert Xor(48, 11) == 59;
    }
    Hex02Byte(119);
  }
}
