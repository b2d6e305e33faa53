/**
 * Key sifting and the wrapped-key cipher (dock-code/src/qkd/qkd.cpp, ctf-components/quantum/qkd.cpp and
 * safe_unlock.cpp).
 */
module KeyCipher {
  import opened Arith
  import opened Qubits

  const NUL: char := '\0'
  const BYTE: nat := 8

  /** The C string held by a buffer: what comes before the first NUL. */
  function CString(buffer: seq<char>): string {
    if buffer == [] || buffer[0] == NUL then [] else [buffer[0]] + CString(buffer[1..])
  }

  ghost predicate NulFree(s: string) { forall i | 0 <= i < |s| :: s[i] != NUL }

  ghost predicate Binary(s: string) { forall i | 0 <= i < |s| :: s[i] == '0' || s[i] == '1' }

  lemma {:induction false} CStringIs(s: string, rest: seq<char>)
    requires NulFree(s)
    ensures CString(s + [NUL] + rest) == s
  {
    var b := s + [NUL] + rest;
    if s != [] {
      assert b[1..] == s[1..] + [NUL] + rest;
      CStringIs(s[1..], rest);
    }
  }

  // ---------------------------------------------------------------- sifting

  /** The key bits at the places where the bases agree. */
  function Sift(key: string, basis1: string, basis2: string): (r: string)
    requires |key| == |basis1| == |basis2|
    ensures |r| <= |key|
  {
    if key == [] then []
    else
      var n := |key| - 1;
      Sift(key[..n], basis1[..n], basis2[..n]) + if basis1[n] == basis2[n] then [key[n]] else []
  }

  /** The shared key; empty when the lengths differ. */
  function SharedKey(key: string, basis1: string, basis2: string): string {
    if |key| != |basis1| || |basis1| != |basis2| then [] else Sift(key, basis1, basis2)
  }

  /** The places where the bases agree. */
  function Places(basis1: string, basis2: string): (r: seq<nat>)
    requires |basis1| == |basis2|
  {
    if basis1 == [] then []
    else
      var n := |basis1| - 1;
      Places(basis1[..n], basis2[..n]) + if basis1[n] == basis2[n] then [n] else []
  }

  lemma {:induction false} PlacesAreAgreements(basis1: string, basis2: string)
    requires |basis1| == |basis2|
    ensures forall p: nat :: p in Places(basis1, basis2) <==> p < |basis1| && basis1[p] == basis2[p]
  {
    if basis1 != [] {
      var n := |basis1| - 1;
      PlacesAreAgreements(basis1[..n], basis2[..n]);
    }
  }

  lemma {:induction false} PlacesIncrease(basis1: string, basis2: string, i: nat, j: nat)
    requires |basis1| == |basis2| && i < j < |Places(basis1, basis2)|
    ensures Places(basis1, basis2)[i] < Places(basis1, basis2)[j]
  {
    var n := |basis1| - 1;
    var before := Places(basis1[..n], basis2[..n]);
    if j < |before| {
      PlacesIncrease(basis1[..n], basis2[..n], i, j);
    } else {
      PlacesAreAgreements(basis1[..n], basis2[..n]);
      assert before[i] in before;
    }
  }

  /** Bit j of the sifted key is the key bit at the j-th place where the bases agree. */
  lemma {:induction false} SiftAt(key: string, basis1: string, basis2: string)
    requires |key| == |basis1| == |basis2|
    ensures |Sift(key, basis1, basis2)| == |Places(basis1, basis2)|
    ensures forall j | 0 <= j < |Places(basis1, basis2)| ::
      Places(basis1, basis2)[j] < |key| && Sift(key, basis1, basis2)[j] == key[Places(basis1, basis2)[j]]
  {
    if key != [] {
      var n := |key| - 1;
      SiftAt(key[..n], basis1[..n], basis2[..n]);
    }
  }

  /** So the shared key is the key where the bases agree, and nothing unless all three are equally long. */
  lemma SharedKeyIs(key: string, basis1: string, basis2: string)
    ensures !(|key| == |basis1| == |basis2|) ==> SharedKey(key, basis1, basis2) == []
    ensures |key| == |basis1| == |basis2| ==>
      var places := Places(basis1, basis2);
      && |SharedKey(key, basis1, basis2)| == |places|
      && forall j | 0 <= j < |places| :: places[j] < |key| && SharedKey(key, basis1, basis2)[j] == key[places[j]]
  {
    if |key| == |basis1| == |basis2| { SiftAt(key, basis1, basis2); }
  }

  lemma {:induction false} SiftKeepsBinary(key: string, basis1: string, basis2: string)
    requires |key| == |basis1| == |basis2| && Binary(key)
    ensures Binary(Sift(key, basis1, basis2))
  {
    if key != [] {
      var n := |key| - 1;
      SiftKeepsBinary(key[..n], basis1[..n], basis2[..n]);
    }
  }

  method GenerateKeyFromBasis(key: string, basis1: string, basis2: string, sharedKey: array<char>)
    requires NulFree(key) && sharedKey.Length > |key|
    modifies sharedKey
    ensures CString(sharedKey[..]) == SharedKey(key, basis1, basis2)
  {
    var j := 0;
    if |key| != |basis1| || |basis1| != |basis2| {
      sharedKey[0] := NUL;
      return;
    }
    for i := 0 to |key|
      invariant j <= i
      invariant sharedKey[..j] == Sift(key[..i], basis1[..i], basis2[..i]) && NulFree(sharedKey[..j])
    {
      SiftNext(key, basis1, basis2, i);
      if basis1[i] == basis2[i] {
        sharedKey[j] := key[i];
        j := j + 1;
      }
    }
    assert key[..|key|] == key && basis1[..|key|] == basis1 && basis2[..|key|] == basis2;
    sharedKey[j] := NUL;
    CStringIs(sharedKey[..j], sharedKey[j + 1..]);
    assert sharedKey[..] == sharedKey[..j] + [NUL] + sharedKey[j + 1..];
  }

  lemma SiftNext(key: string, basis1: string, basis2: string, i: nat)
    requires i < |key| == |basis1| == |basis2|
    ensures Sift(key[..i + 1], basis1[..i + 1], basis2[..i + 1])
      == Sift(key[..i], basis1[..i], basis2[..i]) + if basis1[i] == basis2[i] then [key[i]] else []
  {
    assert key[..i + 1][..i] == key[..i] && basis1[..i + 1][..i] == basis1[..i] && basis2[..i + 1][..i] == basis2[..i];
  }

  // ---------------------------------------------------------------- bytes as binary text

  /** The low `width` bits of a number, most significant first. */
  function BitsMsb(n: nat, width: nat): (s: string)
    ensures |s| == width && Binary(s)
  {
    if width == 0 then [] else BitsMsb(n / 2, width - 1) + [Digit(n % 2)]
  }

  lemma {:induction false} BitsMsbAt(n: nat, width: nat, bit: nat)
    requires bit < width
    ensures BitsMsb(n, width)[width - 1 - bit] == if Bit(n, bit) == 1 then '1' else '0'
  {
    if bit > 0 { BitsMsbAt(n / 2, width - 1, bit - 1); }
  }

  function DigitValue(c: char): nat { if c == '1' then 1 else 0 }

  /** (byte << 1) | (c - '0') in a char; a buffer's NUL instead of a digit is -48, which sets bits 4, 6 and 7. */
  function Shifted(byte: nat, c: char): (r: nat)
    requires byte < 256
    ensures r < 256
  {
    var shifted := 2 * byte % 256;
    if c == NUL then MinusFortyEight(shifted) else shifted + DigitValue(c)
  }

  function MinusFortyEight(byte: nat): (r: nat)
    requires byte < 256
    ensures r < 256
  {
    assert Pow2(BYTE) == 256;
    PutBound(byte, 4, 1, BYTE);
    PutBound(Put(byte, 4, 1), 6, 1, BYTE);
    PutBound(Put(Put(byte, 4, 1), 6, 1), 7, 1, BYTE);
    Put(Put(Put(byte, 4, 1), 6, 1), 7, 1)
  }

  /** All the shifts of one character, first digit first. */
  function Packed(s: string): (byte: nat)
    ensures byte < 256
  {
    if s == [] then 0 else Shifted(Packed(s[..|s| - 1]), s[|s| - 1])
  }

  lemma {:induction false} PackBits(n: nat, width: nat)
    requires n < Pow2(width) && width <= BYTE
    ensures Packed(BitsMsb(n, width)) == n
  {
    if width > 0 {
      PackBits(n / 2, width - 1);
      Pow2Below(width, BYTE);
      assert Pow2(BYTE) == 256;
      PackedLast(BitsMsb(n / 2, width - 1), Digit(n % 2));
      ShiftDigit(n);
    }
  }

  lemma PackedLast(front: string, last: char)
    ensures Packed(front + [last]) == Shifted(Packed(front), last)
  {
    assert (front + [last])[..|front|] == front;
  }

  lemma ShiftDigit(n: nat)
    requires n < 256
    ensures Shifted(n / 2, Digit(n % 2)) == n
  {
  }

  lemma {:induction false} Pow2Below(a: nat, b: nat)
    requires a <= b
    ensures Pow2(a) <= Pow2(b)
  {
    if a < b { Pow2Below(a, b - 1); }
  }

  ghost predicate Narrow(s: string) { forall i | 0 <= i < |s| :: s[i] as int < 256 }

  /** Eight binary digits a character, most significant first. */
  function ToBinary(s: string): (r: string)
    ensures |r| == 8 * |s|
  {
    if s == [] then [] else ToBinary(s[..|s| - 1]) + BitsMsb(s[|s| - 1] as nat, BYTE)
  }

  lemma {:induction false} ToBinaryIsBinary(s: string)
    ensures Binary(ToBinary(s))
  {
    if s != [] { ToBinaryIsBinary(s[..|s| - 1]); }
  }

  method ByteToBinary(c: char) returns (binary: string)
    ensures binary == BitsMsb(c as nat, BYTE)
  {
    var digits := new char[8];
    var bit := 7;
    while bit >= 0
      invariant -1 <= bit <= 7
      invariant forall j | 0 <= j < 7 - bit :: digits[j] == Digit(Bit(c as nat, 7 - j))
    {
      digits[7 - bit] := Digit(Bit(c as nat, bit));
      bit := bit - 1;
    }
    binary := digits[..];
    forall i | 0 <= i < 8 ensures binary[i] == BitsMsb(c as nat, BYTE)[i] {
      BitsMsbAt(c as nat, 8, 7 - i);
    }
  }

  method StringToBinary(input: string) returns (output: string)
    ensures output == ToBinary(input)
  {
    output := "";
    for i := 0 to |input|
      invariant output == ToBinary(input[..i])
    {
      var binary := ByteToBinary(input[i]);
      output := output + binary;
      assert input[..i + 1][..i] == input[..i];
    }
    assert input[..|input|] == input;
  }

  // ---------------------------------------------------------------- the cipher

  /** '1' where text and wrapped key differ. */
  function XorWrapped(text: string, key: string): (r: string)
    requires |key| > 0
    ensures |r| == |text| && Binary(r)
    ensures forall i | 0 <= i < |r| :: r[i] == '1' <==> text[i] != key[i % |key|]
  {
    seq(|text|, i requires 0 <= i < |text| => if text[i] == key[i % |key|] then '0' else '1')
  }

  method XorBinaryWithWrappedKey(text: string, key: string, output: array<char>)
    requires |key| > 0 && output.Length > |text|
    modifies output
    ensures CString(output[..]) == XorWrapped(text, key)
    ensures |CString(output[..])| == |text|
    ensures forall i | 0 <= i < |text| :: CString(output[..])[i] == if text[i] != key[i % |key|] then '1' else '0'
  {
    ghost var result := XorWrapped(text, key);
    for i := 0 to |text|
      invariant forall k | 0 <= k < i :: output[k] == result[k]
    {
      output[i] := if text[i] == key[i % |key|] then '0' else '1';
    }
    output[|text|] := NUL;
    assert output[..|text|] == result;
    assert output[..] == result + [NUL] + output[|text| + 1..];
    CStringIs(result, output[|text| + 1..]);
  }

  /** Each bit comes out right exactly where the two keys agree. */
  lemma WrongKey(text: string, key: string, other: string, i: nat)
    requires Binary(text) && Binary(key) && Binary(other) && |key| == |other| > 0 && i < |text|
    ensures XorWrapped(XorWrapped(text, key), other)[i] != text[i] <==> key[i % |key|] != other[i % |key|]
  {
  }

  lemma RightKey(text: string, key: string)
    requires Binary(text) && Binary(key) && |key| > 0
    ensures XorWrapped(XorWrapped(text, key), key) == text
  {
  }

  /** The first n groups of eight digits as characters. */
  function ToBytes(digits: string, n: nat): (s: string)
    requires 8 * n <= |digits|
    ensures |s| == n
  {
    if n == 0 then [] else ToBytes(digits, n - 1) + [Packed(digits[8 * n - 8..8 * n]) as char]
  }

  lemma {:induction false} ToBinaryAt(s: string, i: nat)
    requires i < |s|
    ensures ToBinary(s)[8 * i..8 * i + 8] == BitsMsb(s[i] as nat, BYTE)
  {
    var front := s[..|s| - 1];
    if i < |front| {
      ToBinaryAt(front, i);
      assert ToBinary(s)[8 * i..8 * i + 8] == ToBinary(front)[8 * i..8 * i + 8];
    }
  }

  lemma PackedChar(c: char)
    requires c as int < 256
    ensures Packed(BitsMsb(c as nat, BYTE)) == c as nat
  {
    assert Pow2(BYTE) == 256;
    PackBits(c as nat, BYTE);
  }

  lemma NextByte(s: string, n: nat, digits: string)
    requires Narrow(s) && 0 < n <= |s| && digits == ToBinary(s)
    ensures ToBytes(digits, n) == ToBytes(digits, n - 1) + [s[n - 1]]
  {
    ToBinaryAt(s, n - 1);
    PackedChar(s[n - 1]);
  }

  /** Packing undoes the expansion into digits. */
  lemma {:induction false} BytesOfBinary(s: string, n: nat)
    requires Narrow(s) && n <= |s|
    ensures ToBytes(ToBinary(s), n) == s[..n]
  {
    if n > 0 {
      BytesOfBinary(s, n - 1);
      NextByte(s, n, ToBinary(s));
    }
  }

  /** How many groups of eight it takes to hold so many digits. */
  function Groups(digits: nat): nat { (digits + 7) / 8 }

  /** The digits up to a whole number of groups, as the zeroed buffer holds them. */
  function Padded(digits: string): (r: string)
    ensures |r| == 8 * Groups(|digits|)
  {
    digits + seq(8 * Groups(|digits|) - |digits|, _ => NUL)
  }

  /** What the badge shows for a ciphertext and a key. */
  function Decrypted(cipher: string, key: string): string
    requires |key| > 0
  {
    CString(ToBytes(Padded(XorWrapped(cipher, key)), Groups(|cipher|)) + [NUL])
  }

  lemma NothingToPad(digits: string, n: nat)
    requires |digits| == 8 * n
    ensures Groups(|digits|) == n && Padded(digits) == digits
  {
  }

  /** With the key the dock used the badge shows the flag, and its digits are the dock's again. */
  lemma DecryptUndoesEncrypt(flag: string, key: string)
    requires Narrow(flag) && NulFree(flag) && Binary(key) && |key| > 0
    ensures Decrypted(XorWrapped(ToBinary(flag), key), key) == flag
    ensures ToBinary(Decrypted(XorWrapped(ToBinary(flag), key), key)) == ToBinary(flag)
  {
    var digits := ToBinary(flag);
    ToBinaryIsBinary(flag);
    RightKey(digits, key);
    NothingToPad(digits, |flag|);
    BytesOfBinary(flag, |flag|);
    CStringIs(flag, []);
    assert flag[..|flag|] == flag && flag + [NUL] + [] == flag + [NUL];
  }

  /** A NUL shifted in sets bits 4, 6 and 7, whatever was there. */
  lemma NulShiftBits(byte: nat, q: nat)
    requires byte < 256 && q < 8
    ensures Bit(Shifted(byte, NUL), q) == 1 <==> q in {4, 6, 7} || (q > 0 && Bit(byte, q - 1) == 1)
  {
    assert Pow2(BYTE) == 256;
    LowBits(2 * byte, BYTE, q);
    BitDoubled(byte, q);
    MinusFortyEightBits(2 * byte % 256, q);
  }

  lemma MinusFortyEightBits(byte: nat, q: nat)
    requires byte < 256
    ensures Bit(MinusFortyEight(byte), q) == if q in {4, 6, 7} then 1 else Bit(byte, q)
  {
    var a := Put(byte, 4, 1);
    var b := Put(a, 6, 1);
    BitPut(byte, 4, 1, q);
    BitPut(a, 6, 1, q);
    BitPut(b, 7, 1, q);
  }

  lemma BitDoubled(n: nat, q: nat)
    ensures Bit(2 * n, q) == if q == 0 then 0 else Bit(n, q - 1)
  {
    assert 2 * n / 2 == n;
  }

  lemma {:induction false} LowBits(n: nat, width: nat, q: nat)
    requires q < width
    ensures Bit(n % Pow2(width), q) == Bit(n, q)
  {
    HalfOfLow(n, Pow2(width - 1));
    if q > 0 { LowBits(n / 2, width - 1, q - 1); }
  }

  lemma HalfOfLow(n: nat, p: nat)
    requires p > 0
    ensures n % (2 * p) / 2 == n / 2 % p && n % (2 * p) % 2 == n % 2
  {
    var k, r := n / (2 * p), n % (2 * p);
    DivWindow(n, 2 * p);
    assert n == 2 * (p * k) + r;
    QuotientUnique(n / 2, p, k);
  }

  lemma {:induction false} ToBytesOfFront(digits: string, rest: string, n: nat)
    requires 8 * n <= |digits|
    ensures ToBytes(digits + rest, n) == ToBytes(digits, n)
  {
    if n > 0 {
      ToBytesOfFront(digits, rest, n - 1);
      assert (digits + rest)[8 * n - 8..8 * n] == digits[8 * n - 8..8 * n];
    }
  }

  /** Digits left over from the last group of eight show as one more character, with bits 4, 6 and 7 set. */
  lemma LeftoverDigits(flag: string, rest: string, key: string) returns (c: char)
    requires Narrow(flag) && NulFree(flag) && Binary(rest) && 0 < |rest| < 8 && Binary(key) && |key| > 0
    ensures Decrypted(XorWrapped(ToBinary(flag) + rest, key), key) == flag + [c]
    ensures c as int < 256 && Bit(c as nat, 4) == Bit(c as nat, 6) == Bit(c as nat, 7) == 1
  {
    var nuls := seq(8 - |rest|, _ => NUL);
    ToBinaryIsBinary(flag);
    RightKey(ToBinary(flag) + rest, key);
    c := PaddedGroup(rest, nuls);
    PaddedRest(ToBinary(flag), rest, |flag|, nuls);
    BytesOfBinary(flag, |flag|);
    BytesAndGroup(ToBinary(flag), rest + nuls, |flag|, c);
    assert flag[..|flag|] == flag;
    CStringEnds(flag + [c]);
  }

  lemma PaddedRest(digits: string, rest: string, n: nat, nuls: string)
    requires |digits| == 8 * n && 0 < |rest| < 8 && nuls == seq(8 - |rest|, _ => NUL)
    ensures Groups(|digits + rest|) == n + 1 && Padded(digits + rest) == digits + (rest + nuls)
  {
  }

  lemma BytesAndGroup(digits: string, last: string, n: nat, c: char)
    requires |digits| == 8 * n && |last| == 8 && c as int == Packed(last)
    ensures ToBytes(digits + last, n + 1) == ToBytes(digits, n) + [c]
  {
    ToBytesOfFront(digits, last, n);
    assert (digits + last)[8 * n..8 * n + 8] == last;
  }

  lemma CStringEnds(s: string)
    requires NulFree(s)
    ensures CString(s + [NUL]) == s
  {
    CStringIs(s, []);
    assert s + [NUL] + [] == s + [NUL];
  }

  lemma PaddedGroup(rest: string, nuls: string) returns (c: char)
    requires |nuls| > 0 && nuls[|nuls| - 1] == NUL
    ensures c as int == Packed(rest + nuls) && c != NUL
    ensures Bit(c as nat, 4) == Bit(c as nat, 6) == Bit(c as nat, 7) == 1
  {
    c := Packed(rest + nuls) as char;
    var front := (rest + nuls)[..|rest| + |nuls| - 1];
    assert Packed(rest + nuls) == Shifted(Packed(front), NUL);
    NulShiftBits(Packed(front), 4);
    NulShiftBits(Packed(front), 6);
    NulShiftBits(Packed(front), 7);
  }

  /** Eight digits shifted into a char, one at a time. */
  method PackByte(digits: string) returns (byte: nat)
    requires |digits| == 8
    ensures byte == Packed(digits)
  {
    byte := 0;
    for bit := 0 to 8
      invariant byte == Packed(digits[..bit])
    {
      assert digits[..bit + 1][..bit] == digits[..bit];
      byte := Shifted(byte, digits[bit]);
    }
    assert digits[..8] == digits;
  }

  method DecryptInto(cipher: string, key: string, digits: array<char>)
    requires |key| > 0 && digits.Length >= |cipher|
    modifies digits
    ensures digits[..|cipher|] == XorWrapped(cipher, key)
    ensures forall k | |cipher| <= k < digits.Length :: digits[k] == old(digits[k])
  {
    for i := 0 to |cipher|
      invariant digits[..i] == XorWrapped(cipher, key)[..i]
      invariant forall k | i <= k < digits.Length :: digits[k] == old(digits[k])
    {
      digits[i] := if cipher[i] != key[i % |key|] then '1' else '0';
    }
  }

  method PackInto(digits: string, ghost n: nat, flag: array<char>)
    requires |digits| == 8 * n && flag.Length >= n
    modifies flag
    ensures flag[..n] == ToBytes(digits, n)
    ensures forall k | n <= k < flag.Length :: flag[k] == old(flag[k])
  {
    var charIndex := 0;
    var i := 0;
    while i < |digits|
      invariant i == 8 * charIndex && charIndex <= n
      invariant flag[..charIndex] == ToBytes(digits, charIndex)
      invariant forall k | charIndex <= k < flag.Length :: flag[k] == old(flag[k])
    {
      var byte := PackByte(digits[i..i + 8]);
      flag[charIndex] := byte as char;
      charIndex := charIndex + 1;
      i := i + 8;
    }
  }

  /** The buffers hold 129 and 17 bytes. */
  method DecryptSafeFlag(cipher: string, key: string) returns (flag: string)
    requires |cipher| <= 128
    ensures flag == if |cipher| == 0 || |key| == 0 then "nothing" else Decrypted(cipher, key)
  {
    if |cipher| == 0 || |key| == 0 {
      return "nothing";
    }
    var decryptedBinary := new char[129](_ => NUL);
    DecryptInto(cipher, key, decryptedBinary);
    var n := Groups(|cipher|);
    assert decryptedBinary[..8 * n] == Padded(XorWrapped(cipher, key));
    var decryptedFlag := new char[17](_ => NUL);
    PackInto(decryptedBinary[..8 * n], n, decryptedFlag);
    flag := CString(decryptedFlag[..]);
    CStringPadded(decryptedFlag[..], n);
  }

  lemma CStringPadded(buffer: seq<char>, n: nat)
    requires n < |buffer| && buffer[n] == NUL
    ensures CString(buffer) == CString(buffer[..n] + [NUL])
  {
    assert buffer == buffer[..n] + buffer[n..];
    CStringPads(buffer[..n], buffer[n..]);
  }

  /** Trailing NULs in a buffer make no difference. */
  lemma {:induction false} CStringPads(s: seq<char>, rest: seq<char>)
    requires rest != [] && rest[0] == NUL
    ensures CString(s + rest) == CString(s + [NUL])
  {
    if s != [] {
      assert (s + rest)[1..] == s[1..] + rest && (s + [NUL])[1..] == s[1..] + [NUL];
      CStringPads(s[1..], rest);
    }
  }
}
