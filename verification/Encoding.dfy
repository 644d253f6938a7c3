/** Little-endian numbers and lists of them, as the binary formats write and read them. */
module Encoding {
  import opened Bits

  function Pow256(width: nat): (p: nat)
    ensures p >= 1
  {
    if width == 0 then 1 else 256 * Pow256(width - 1)
  }

  /** The low `width` bytes of a number, lowest first: a longer number is cut off. */
  function Le(value: nat, width: nat): (bytes: seq<u8>)
    ensures |bytes| == width
  {
    if width == 0 then [] else [value % 256] + Le(value / 256, width - 1)
  }

  function Value(bytes: seq<u8>): (value: nat)
    ensures value < Pow256(|bytes|)
  {
    if bytes == [] then 0 else bytes[0] + 256 * Value(bytes[1..])
  }

  /** Byte i counts the 256^i. */
  lemma {:induction false} LeAt(value: nat, width: nat, i: nat)
    requires i < width
    ensures Le(value, width)[i] == value / Pow256(i) % 256
  {
    if i > 0 {
      LeAt(value / 256, width - 1, i - 1);
      DivDiv(value, 256, Pow256(i - 1));
    } else {
      assert value / 1 == value;
    }
  }

  lemma DivDiv(a: nat, m: nat, n: nat)
    requires m > 0 && n > 0
    ensures a / m / n == a / (m * n)
  {
    var q, r := a / m, a % m;
    var q', r' := q / n, q % n;
    assert a == q * m + r && q == q' * n + r';
    assert q * m == q' * (m * n) + r' * m;
    MulMono(r', n - 1, m);
    assert (n - 1) * m == m * n - m;
    ModUnique(a, m * n, q', r' * m + r);
  }

  lemma {:induction false} ValueOfLe(value: nat, width: nat)
    requires value < Pow256(width)
    ensures Value(Le(value, width)) == value
  {
    if width > 0 {
      assert value / 256 < Pow256(width - 1);
      ValueOfLe(value / 256, width - 1);
      assert Le(value, width)[1..] == Le(value / 256, width - 1);
    }
  }

  lemma {:induction false} LeOfValue(bytes: seq<u8>)
    ensures Le(Value(bytes), |bytes|) == bytes
  {
    if bytes != [] {
      LeOfValue(bytes[1..]);
      assert Value(bytes) % 256 == bytes[0] && Value(bytes) / 256 == Value(bytes[1..]);
    }
  }

  lemma Widths()
    ensures Pow256(1) == 256 && Pow256(2) == U16 && Pow256(4) == U32 && Pow256(8) == U64
  {
    assert Pow256(2) == 256 * Pow256(1);
    assert Pow256(4) == 256 * (256 * Pow256(2));
    assert Pow256(8) == 256 * (256 * (256 * (256 * Pow256(4))));
  }

  /** A 16-bit length field holds the length modulo 2^16. */
  lemma ShortLength(length: nat)
    ensures Value(Le(length, 2)) == length % U16
    ensures Le(length, 2) == Le(length % U16, 2)
  {
    var low, high := length % 256, length / 256 % 256;
    assert Le(length / 256, 1) == [high] + Le(length / 256 / 256, 0);
    assert Le(length, 2) == [low, high];
    assert Value([low, high]) == low + 256 * Value([low, high][1..]);
    assert Value([high]) == high + 256 * Value([high][1..]);
    assert Value([]) == 0;
    assert length % U16 == low + 256 * high;
    ValueOfLe(length % U16, 2);
    LeOfValue([low, high]);
  }

  /** Two numbers that fit and are both written at the start of the same bytes are equal. */
  lemma LeWrittenOnce(a: nat, b: nat, width: nat, bytes: seq<u8>)
    requires a < Pow256(width) && b < Pow256(width)
    requires Le(a, width) <= bytes && Le(b, width) <= bytes
    ensures a == b
  {
    assert Le(a, width) == bytes[..width] == Le(b, width);
    ValueOfLe(a, width);
    ValueOfLe(b, width);
  }

  /** Splits a prefix made of two parts. */
  lemma PrefixParts(first: seq<u8>, rest: seq<u8>, bytes: seq<u8>)
    ensures first + rest <= bytes <==> first <= bytes && rest <= bytes[|first|..]
  {
    if first + rest <= bytes {
      assert first == (first + rest)[..|first|] == bytes[..|first|];
      assert rest == (first + rest)[|first|..] == bytes[|first|..][..|rest|];
    }
    if first <= bytes && rest <= bytes[|first|..] {
      assert bytes == first + bytes[|first|..];
    }
  }

  // ---- lists of 16-bit numbers ----

  function Words(words: seq<u16>): (bytes: seq<u8>)
    ensures |bytes| == 2 * |words|
  {
    if words == [] then [] else Words(words[..|words| - 1]) + Le(words[|words| - 1], 2)
  }

  lemma WordsAppend(words: seq<u16>, word: u16)
    ensures Words(words + [word]) == Words(words) + Le(word, 2)
  {
    assert (words + [word])[..|words|] == words;
  }

  lemma {:induction false} WordsConcat(a: seq<u16>, b: seq<u16>)
    ensures Words(a + b) == Words(a) + Words(b)
  {
    if b == [] {
      assert a + b == a;
    } else {
      var front, last := b[..|b| - 1], b[|b| - 1];
      var all := a + front;
      WordsConcat(a, front);
      WordsAppend(all, last);
      WordsAppend(front, last);
      assert a + b == all + [last] && b == front + [last];
      var x, y, z := Words(a), Words(front), Le(last, 2);
      assert (x + y) + z == x + (y + z);
    }
  }

  lemma {:induction false} WordsWrittenOnce(a: seq<u16>, b: seq<u16>, bytes: seq<u8>)
    requires |a| == |b| && Words(a) <= bytes && Words(b) <= bytes
    ensures a == b
  {
    if a != [] {
      var n := |a| - 1;
      assert Words(a) == bytes[..2 * n + 2] == Words(b);
      assert Words(a[..n]) == Words(a)[..2 * n] == Words(b[..n]);
      assert Le(a[n], 2) == Words(a)[2 * n..] == Le(b[n], 2);
      Widths();
      WordsWrittenOnce(a[..n], b[..n], bytes);
      LeWrittenOnce(a[n], b[n], 2, Words(a)[2 * n..]);
      assert a == a[..n] + [a[n]] && b == b[..n] + [b[n]];
    }
  }

  lemma {:induction false} WordAt(words: seq<u16>, i: nat, bytes: seq<u8>)
    requires i < |words| && Words(words) <= bytes
    ensures 2 * i + 2 <= |bytes| && Le(words[i], 2) <= bytes[2 * i..]
  {
    var front, last := words[..|words| - 1], words[|words| - 1];
    PrefixParts(Words(front), Le(last, 2), bytes);
    if i < |front| {
      WordAt(front, i, bytes);
    }
  }

  method WriteWords(bytes: seq<u8>, words: seq<u16>) returns (result: seq<u8>)
    ensures result == bytes + Words(words)
  {
    result := bytes;
    for i := 0 to |words|
      invariant result == bytes + Words(words[..i])
    {
      assert words[..i + 1] == words[..i] + [words[i]];
      WordsAppend(words[..i], words[i]);
      result := result + Le(words[i], 2);
    }
    assert words[..|words|] == words;
  }

  /** Reads `width` bytes at an offset. */
  method ReadLe(bytes: seq<u8>, offset: nat, width: nat) returns (value: nat)
    requires offset + width <= |bytes|
    ensures value < Pow256(width) && Le(value, width) == bytes[offset..offset + width]
  {
    value := Value(bytes[offset..offset + width]);
    LeOfValue(bytes[offset..offset + width]);
  }

  method ReadWords(bytes: seq<u8>, start: nat, count: nat) returns (words: seq<u16>, offset: nat)
    requires start + 2 * count <= |bytes|
    ensures |words| == count && offset == start + 2 * count
    ensures Words(words) == bytes[start..offset]
  {
    words, offset := [], start;
    for i := 0 to count
      invariant |words| == i && offset == start + 2 * i
      invariant Words(words) == bytes[start..offset]
    {
      var word := ReadLe(bytes, offset, 2);
      Widths();
      WordsAppend(words, word);
      assert bytes[start..offset] + bytes[offset..offset + 2] == bytes[start..offset + 2];
      words := words + [word];
      offset := offset + 2;
    }
  }
}
