// Base64 with padding (section 4 of RFC 4648), as the chunk envelopes use it.
module Base64 {
  import opened Strings
  import opened Framing

  type sextet = d: int | 0 <= d < 64

  const PAD := '='

  function CharOf(d: sextet): (c: char)
    ensures DigitOf(c) == Some(d) && c != PAD
  {
    if d < 26 then (d + 65) as char
    else if d < 52 then (d + 71) as char
    else if d < 62 then (d - 4) as char
    else if d == 62 then '+'
    else '/'
  }

  function DigitOf(c: char): (d: Option<sextet>)
    ensures d.Some? ==> c != PAD
  {
    var n := c as int;
    if 65 <= n <= 90 then Some(n - 65)
    else if 97 <= n <= 122 then Some(n - 71)
    else if 48 <= n <= 57 then Some(n + 4)
    else if c == '+' then Some(62)
    else if c == '/' then Some(63)
    else None
  }

  lemma CharOfDigit(c: char)
    requires DigitOf(c).Some?
    ensures CharOf(DigitOf(c).value) == c
  {
  }

  // The alphabet of section 4: A to Z, a to z, 0 to 9, plus and slash.
  lemma Alphabet(d: sextet)
    ensures CharOf(0) == 'A' && CharOf(25) == 'Z' && CharOf(26) == 'a' && CharOf(51) == 'z'
    ensures CharOf(52) == '0' && CharOf(61) == '9' && CharOf(62) == '+' && CharOf(63) == '/'
    ensures d < 61 && d != 25 && d != 51 ==> CharOf(d + 1) as int == CharOf(d) as int + 1
  {
  }

  // Test vectors of section 10: "f", "fo", "foo" and "foob".
  lemma StandardVectors()
    ensures Encode([102]) == "Zg==" && Encode([102, 111]) == "Zm8="
    ensures Encode([102, 111, 111]) == "Zm9v" && Encode([102, 111, 111, 98]) == "Zm9vYg=="
  {
    var three: Bytes, four: Bytes := [102, 111, 111], [102, 111, 111, 98];
    assert three[3..] == [] && four[3..] == [98];
    assert Encode([]) == "";
  }

  // The 24 bits of three bytes as four sextets, and back.
  function Split(a: byte, b: byte, c: byte): (sextet, sextet, sextet, sextet)
  {
    var x: int, y: int, z: int := a, b, c;
    (x / 4, x % 4 * 16 + y / 16, y % 16 * 4 + z / 64, z % 64)
  }

  function First(p: sextet, q: sextet): byte
  {
    var x: int, y: int := p, q;
    x * 4 + y / 16
  }

  function Second(q: sextet, r: sextet): byte
  {
    var x: int, y: int := q, r;
    x % 16 * 16 + y / 4
  }

  function Third(r: sextet, s: sextet): byte
  {
    var x: int, y: int := r, s;
    x % 4 * 64 + y
  }

  lemma SplitJoins(a: byte, b: byte, c: byte)
    ensures var (p, q, r, s) := Split(a, b, c);
            First(p, q) == a && Second(q, r) == b && Third(r, s) == c &&
            (b == 0 ==> q % 16 == 0) && (c == 0 ==> r % 4 == 0)
  {
  }

  lemma HighBits(p: sextet, q: sextet)
    ensures var a: int := First(p, q); a / 4 == p && a % 4 == q / 16
  {
  }

  lemma MiddleBits(q: sextet, r: sextet)
    ensures var b: int := Second(q, r); b / 16 == q % 16 && b % 16 == r / 4
  {
  }

  lemma LowBits(r: sextet, s: sextet)
    ensures var c: int := Third(r, s); c / 64 == r % 4 && c % 64 == s
  {
  }

  lemma JoinSplits(p: sextet, q: sextet, r: sextet, s: sextet)
    ensures Split(First(p, q), Second(q, r), Third(r, s)) == (p, q, r, s)
    ensures r % 4 == 0 ==> Split(First(p, q), Second(q, r), 0) == (p, q, r, 0)
    ensures q % 16 == 0 ==> Split(First(p, q), 0, 0) == (p, q, 0, 0)
  {
    HighBits(p, q);
    MiddleBits(q, r);
    LowBits(r, s);
    hide First, Second, Third;
  }

  function Encode(data: Bytes): (text: string)
    ensures |text| == (|data| + 2) / 3 * 4
    decreases |data|
  {
    if data == [] then ""
    else if |data| == 1 then
      var (p, q, r, s) := Split(data[0], 0, 0);
      [CharOf(p), CharOf(q), PAD, PAD]
    else if |data| == 2 then
      var (p, q, r, s) := Split(data[0], data[1], 0);
      [CharOf(p), CharOf(q), CharOf(r), PAD]
    else
      var (p, q, r, s) := Split(data[0], data[1], data[2]);
      [CharOf(p), CharOf(q), CharOf(r), CharOf(s)] + Encode(data[3..])
  }

  // Only the alphabet and padding.
  predicate IsText(text: string)
  {
    forall k :: 0 <= k < |text| ==> DigitOf(text[k]).Some? || text[k] == PAD
  }

  lemma {:induction false} EncodeIsText(data: Bytes)
    ensures IsText(Encode(data))
    decreases |data|
  {
    hide Split;
    if |data| > 2 {
      EncodeIsText(data[3..]);
    }
  }

  // Strict decoding: only the alphabet, padding only in the last quantum; the
  // spare bits before the padding are not looked at.
  function Decode(text: string): (data: Option<Bytes>)
    ensures data.Some? ==> |text| == (|data.value| + 2) / 3 * 4
    decreases |text|
  {
    if text == "" then Some([])
    else if |text| < 4 then None
    else
      var p, q, r, s := DigitOf(text[0]), DigitOf(text[1]), DigitOf(text[2]), DigitOf(text[3]);
      if p.None? || q.None? then None
      else if |text| == 4 && text[2] == PAD && text[3] == PAD then Some([First(p.value, q.value)])
      else if r.None? then None
      else if |text| == 4 && text[3] == PAD then Some([First(p.value, q.value), Second(q.value, r.value)])
      else if s.None? then None
      else
        match Decode(text[4..])
        case None => None
        case Some(rest) =>
          Some([First(p.value, q.value), Second(q.value, r.value), Third(r.value, s.value)] + rest)
  }

  lemma {:induction false} RoundTrip(data: Bytes)
    ensures Decode(Encode(data)) == Some(data)
    decreases |data|
  {
    hide CharOf;
    hide DigitOf;
    hide Split;
    if data == [] {
    } else if |data| == 1 {
      SplitJoins(data[0], 0, 0);
      var text := Encode(data);
      assert text[2] == PAD && text[3] == PAD;
      assert data == [data[0]];
    } else if |data| == 2 {
      SplitJoins(data[0], data[1], 0);
      assert data == [data[0], data[1]];
    } else {
      SplitJoins(data[0], data[1], data[2]);
      RoundTrip(data[3..]);
      assert Encode(data)[4..] == Encode(data[3..]);
      assert data == [data[0], data[1], data[2]] + data[3..];
    }
  }

  // Only digits of the alphabet, and then n padding characters.
  ghost predicate Padded(text: string, n: nat)
  {
    n <= |text| && (forall k :: 0 <= k < |text| - n ==> DigitOf(text[k]).Some?) &&
    forall k :: |text| - n <= k < |text| ==> text[k] == PAD
  }

  // What decodes: whole quanta, in which at most the last two characters are padding.
  lemma {:induction false} DecodesExactly(text: string)
    ensures Decode(text).Some? <==> |text| % 4 == 0 && exists n: nat :: n <= 2 && Padded(text, n)
    decreases |text|
  {
    hide DigitOf, First, Second, Third;
    assert DigitOf(PAD).None? by { PadIsNoDigit(); }
    if text == "" {
      assert Padded(text, 0);
    } else if |text| > 4 {
      DecodesExactly(text[4..]);
      assert |text[4..]| % 4 == |text| % 4;
      if |text| % 4 == 0 {
        forall n: nat | n <= 2 ensures Padded(text, n) <==> FirstQuantum(text) && Padded(text[4..], n) {
          PaddedLater(text, n);
        }
      }
    } else if |text| == 4 {
      assert text[4..] == "";
      assert text[2] == PAD && text[3] == PAD ==>
          (Padded(text, 2) <==> DigitOf(text[0]).Some? && DigitOf(text[1]).Some?);
      assert text[2] != PAD && text[3] == PAD ==>
          (Padded(text, 1) <==> forall k :: 0 <= k < 3 ==> DigitOf(text[k]).Some?);
      assert Padded(text, 0) <==> forall k :: 0 <= k < 4 ==> DigitOf(text[k]).Some?;
    }
  }

  ghost predicate FirstQuantum(text: string)
  {
    |text| >= 4 && forall k :: 0 <= k < 4 ==> DigitOf(text[k]).Some?
  }

  lemma PaddedLater(text: string, n: nat)
    requires |text| >= 8 && n <= 2
    ensures Padded(text, n) <==> FirstQuantum(text) && Padded(text[4..], n)
  {
    hide DigitOf;
    assert forall k :: 4 <= k < |text| ==> text[k] == text[4..][k - 4];
  }

  lemma PadIsNoDigit()
    ensures DigitOf(PAD).None?
  {
  }

  // The bits an encoder leaves zero before the padding.
  predicate Canonical(text: string)
    decreases |text|
  {
    if |text| < 4 then text == ""
    else if |text| > 4 then Canonical(text[4..])
    else if text[2] == PAD then DigitOf(text[1]).Some? && DigitOf(text[1]).value % 16 == 0
    else if text[3] == PAD then DigitOf(text[2]).Some? && DigitOf(text[2]).value % 4 == 0
    else true
  }

  // A decodable text is the encoding of what it decodes to exactly when its spare bits are zero.
  lemma {:induction false} DecodedReencodes(text: string)
    requires Decode(text).Some?
    ensures Canonical(text) <==> Encode(Decode(text).value) == text
    decreases |text|
  {
    hide CharOf;
    hide DigitOf;
    hide Split;
    hide First;
    hide Second;
    hide Third;
    if text == "" {
    } else {
      var p, q := DigitOf(text[0]).value, DigitOf(text[1]).value;
      CharOfDigit(text[0]);
      CharOfDigit(text[1]);
      if |text| == 4 && text[2] == PAD && text[3] == PAD {
        PaddedTwice(text, p, q);
      } else {
        var r := DigitOf(text[2]).value;
        CharOfDigit(text[2]);
        if |text| == 4 && text[3] == PAD {
          PaddedOnce(text, p, q, r);
        } else {
          var s := DigitOf(text[3]).value;
          CharOfDigit(text[3]);
          JoinSplits(p, q, r, s);
          DecodedReencodes(text[4..]);
          var data := Decode(text).value;
          assert data[3..] == Decode(text[4..]).value;
          assert text == text[..4] + text[4..];
          assert text[..4] == [text[0], text[1], text[2], text[3]];
        }
      }
    }
  }

  lemma PaddedTwice(text: string, p: sextet, q: sextet)
    requires |text| == 4 && text[2] == PAD && text[3] == PAD
    requires text[0] == CharOf(p) && text[1] == CharOf(q)
    ensures q % 16 == 0 <==> Encode([First(p, q)]) == text
  {
    hide CharOf;
    hide DigitOf;
    var (p', q', r', s') := Split(First(p, q), 0, 0);
    assert q' % 16 == 0 && p' == p && (q % 16 == 0 ==> q' == q);
    assert DigitOf(CharOf(q')) == Some(q') && DigitOf(CharOf(q)) == Some(q);
    assert Encode([First(p, q)]) == [CharOf(p'), CharOf(q'), PAD, PAD];
  }

  lemma PaddedOnce(text: string, p: sextet, q: sextet, r: sextet)
    requires |text| == 4 && text[3] == PAD
    requires text[0] == CharOf(p) && text[1] == CharOf(q) && text[2] == CharOf(r)
    ensures r % 4 == 0 <==> Encode([First(p, q), Second(q, r)]) == text
  {
    hide CharOf;
    hide DigitOf;
    var (p', q', r', s') := Split(First(p, q), Second(q, r), 0);
    assert r' % 4 == 0 && p' == p && q' == q && (r % 4 == 0 ==> r' == r);
    assert DigitOf(CharOf(r')) == Some(r') && DigitOf(CharOf(r)) == Some(r);
    assert Encode([First(p, q), Second(q, r)]) == [CharOf(p'), CharOf(q'), CharOf(r'), PAD];
  }
}
