/**
  Obfuscation of file identifiers between instances (MakeXorKey and XorID
  of pkg/sharing/files.go): every hexadecimal character of an identifier
  is XORed with a key nibble, so that the identifiers of the files of a
  sharing differ from one instance to another.
*/
module Obfuscation {

  predicate IsHex(c: char) {
    '0' <= c <= '9' || 'a' <= c <= 'f' || 'A' <= c <= 'F'
  }

  predicate IsLowerHex(c: char) {
    '0' <= c <= '9' || 'a' <= c <= 'f'
  }

  /** The value of a hexadecimal character. */
  function Nibble(c: char): (n: int)
    requires IsHex(c)
    ensures 0 <= n < 16
  {
    if c <= '9' then c as int - '0' as int
    else if c >= 'a' then c as int - 'a' as int + 10
    else c as int - 'A' as int + 10
  }

  /**
    The character XorID writes for a byte v: a digit below 10, otherwise
    v - 10 + 'a' computed in a byte, so with wrap-around past 255.
  */
  function HexChar(v: bv8): (c: char)
    ensures v < 16 ==> IsLowerHex(c) && Nibble(c) == v as int
  {
    if v < 10 then (v as int + '0' as int) as char
    else ((v as int - 10 + 'a' as int) % 256) as char
  }

  /** XorID indexes the key modulo its length, so it needs one unless no character is hexadecimal. */
  predicate KeyFits(id: string, key: seq<bv8>) {
    |key| > 0 || forall i :: 0 <= i < |id| ==> !IsHex(id[i])
  }

  predicate IsNibbleKey(key: seq<bv8>) {
    forall j :: 0 <= j < |key| ==> key[j] < 16
  }

  /** One character of XorID: a hexadecimal character XORed with the key byte k. */
  function XorChar(c: char, k: bv8): char {
    if IsHex(c) then HexChar((Nibble(c) as bv8) ^ k) else c
  }

  /**
    The identifier XorID computes: the character at i XORed with
    key[i % |key|]. It has the length of the identifier, leaves the other
    characters alone, and with a key of nibbles writes lowercase hex.
  */
  function Xored(id: string, key: seq<bv8>): (r: string)
    requires KeyFits(id, key)
    ensures |r| == |id|
    ensures forall i :: 0 <= i < |id| && !IsHex(id[i]) ==> r[i] == id[i]
    ensures IsNibbleKey(key) ==> forall i :: 0 <= i < |id| && IsHex(id[i]) ==> IsLowerHex(r[i])
  {
    seq(|id|, i requires 0 <= i < |id| => if IsHex(id[i]) then XorChar(id[i], key[i % |key|]) else id[i])
  }

  /** XorID, on a mutable buffer holding the identifier. */
  method XorID(id: string, key: seq<bv8>) returns (r: string)
    requires KeyFits(id, key)
    ensures r == Xored(id, key)
  {
    ghost var target := Xored(id, key);
    var buf := new char[|id|](i requires 0 <= i < |id| => id[i]);
    var i := 0;
    while i < buf.Length
      invariant 0 <= i <= buf.Length == |id|
      invariant forall j :: 0 <= j < i ==> buf[j] == target[j]
      invariant forall j :: i <= j < buf.Length ==> buf[j] == id[j]
    {
      if IsHex(buf[i]) {
        buf[i] := XorHexChar(buf[i], key[i % |key|]);
      }
      i := i + 1;
    }
    r := buf[..];
  }

  /** The body of the loop of XorID for a hexadecimal character c and the key byte k. */
  method XorHexChar(c: char, k: bv8) returns (d: char)
    requires IsHex(c)
    ensures d == XorChar(c, k)
  {
    var n: int;
    if '0' <= c <= '9' {
      n := c as int - '0' as int;
    } else if 'a' <= c <= 'f' {
      n := c as int - 'a' as int + 10;
    } else {
      n := c as int - 'A' as int + 10;
    }
    assert n == Nibble(c);
    var v := (n as bv8) ^ k;
    if v < 10 {
      d := (v as int + '0' as int) as char;
    } else {
      d := ((v as int - 10 + 'a' as int) % 256) as char;
    }
    assert d == HexChar(v);
  }

  /** XOR keeps nibbles nibbles and undoes itself. */
  lemma XorNibble(a: bv8, k: bv8)
    requires a < 16 && k < 16
    ensures a ^ k < 16 && (a ^ k) ^ k == a
  {
  }

  /** HexChar writes back the lowercase hex character a nibble was read from. */
  lemma HexCharOfNibble(c: char)
    requires IsLowerHex(c)
    ensures HexChar(Nibble(c) as bv8) == c
  {
  }

  /** A nibble written by HexChar reads back as the same nibble. */
  lemma NibbleOfHexChar(v: bv8)
    requires v < 16
    ensures IsHex(HexChar(v)) && Nibble(HexChar(v)) as bv8 == v
  {
  }

  /** XORing a lowercase hex character twice with the same nibble gives it back. */
  lemma XorCharTwice(c: char, k: bv8)
    requires IsLowerHex(c) && k < 16
    ensures XorChar(XorChar(c, k), k) == c
  {
    var a := Nibble(c) as bv8;
    XorNibble(a, k);
    NibbleOfHexChar(a ^ k);
    HexCharOfNibble(c);
  }

  /**
    XorID undoes itself: with a non-empty key of nibbles, as MakeXorKey
    makes, on an identifier whose hexadecimal letters are lowercase.
  */
  lemma XorIDSelfInverse(id: string, key: seq<bv8>)
    requires |key| > 0 && IsNibbleKey(key)
    requires forall i :: 0 <= i < |id| && IsHex(id[i]) ==> IsLowerHex(id[i])
    ensures Xored(Xored(id, key), key) == id
  {
    var once := Xored(id, key);
    var twice := Xored(once, key);
    forall i | 0 <= i < |id|
      ensures twice[i] == id[i]
    {
      if IsHex(id[i]) {
        XorCharTwice(id[i], key[i % |key|]);
      }
    }
  }

  /** Uppercase hex letters come back lowercase, which is why XorIDSelfInverse requires lowercase. */
  lemma XorIDLowercases()
    ensures Xored(Xored("A", [0]), [0]) == "a"
  {
    assert Xored("A", [0])[0] == XorChar('A', 0);
    assert XorChar('A', 0) == 'a';
    assert Xored("a", [0])[0] == XorChar('a', 0) == 'a';
  }

  /**
    MakeXorKey with the random bytes given: each byte becomes two key bytes,
    its low nibble then its high nibble.
  */
  method MakeXorKey(random: seq<bv8>) returns (key: seq<bv8>)
    ensures |key| == 2 * |random|
    ensures forall i :: 0 <= i < |random| ==> key[2 * i] == random[i] & 0xf && key[2 * i + 1] == random[i] >> 4
    ensures IsNibbleKey(key)
    ensures |random| == RandomSeedLength ==> |key| == 16
  {
    var result := new bv8[2 * |random|];
    var i := 0;
    while i < |random|
      invariant 0 <= i <= |random|
      invariant forall j :: 0 <= j < i ==> result[2 * j] == random[j] & 0xf && result[2 * j + 1] == random[j] >> 4
    {
      result[2 * i] := random[i] & 0xf;
      result[2 * i + 1] := random[i] >> 4;
      i := i + 1;
    }
    key := result[..];
    forall j | 0 <= j < |key|
      ensures key[j] < 16
    {
      assert key[2 * (j / 2)] == random[j / 2] & 0xf && key[2 * (j / 2) + 1] == random[j / 2] >> 4;
    }
  }

  /** The number of random bytes MakeXorKey draws, hence a key of 16 nibbles. */
  const RandomSeedLength := 8
}
