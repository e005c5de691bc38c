/** The Python text primitives the range endpoint relies on: ASCII decoding
    of the stored object, str.strip(), str.split("\n"), "\n".join(...) and
    str.upper(), each written out over `string` (a sequence of characters). */
module Text {

  newtype byte = x: int | 0 <= x < 256

  datatype Option<T> = None | Some(value: T)

  // ---------------------------------------------------------------------------
  // bytes.decode("ascii")

  predicate IsAsciiText(s: string) {
    forall i :: 0 <= i < |s| ==> s[i] as int < 128
  }

  /** Decoding succeeds exactly when every byte is below 128; each byte then
      becomes the character with the same code. */
  function DecodeAscii(b: seq<byte>): (r: Option<string>)
    ensures r.Some? <==> forall i :: 0 <= i < |b| ==> b[i] < 128
    ensures r.Some? ==> |r.value| == |b| && IsAsciiText(r.value)
    ensures r.Some? ==> forall i :: 0 <= i < |b| ==> r.value[i] as int == b[i] as int
    ensures r.Some? ==> EncodeAscii(r.value) == b
  {
    if forall i :: 0 <= i < |b| ==> b[i] < 128 then
      var s := seq(|b|, i requires 0 <= i < |b| => (b[i] as int) as char);
      assert EncodeAscii(s) == b by {
        forall i | 0 <= i < |b| ensures EncodeAscii(s)[i] == b[i] {
          assert EncodeAscii(s)[i] as int == s[i] as int == b[i] as int;
        }
      }
      Some(s)
    else
      None
  }

  /** The bytes of an ASCII text, as the store holds them. */
  function EncodeAscii(s: string): (b: seq<byte>)
    requires IsAsciiText(s)
    ensures |b| == |s|
  {
    seq(|s|, i requires 0 <= i < |s| => (s[i] as int) as byte)
  }

  lemma DecodeEncode(s: string)
    requires IsAsciiText(s)
    ensures DecodeAscii(EncodeAscii(s)) == Some(s)
  {
    var b := EncodeAscii(s);
    var d := DecodeAscii(b);
    assert d.Some?;
    assert d.value == s by {
      forall i | 0 <= i < |s| ensures d.value[i] == s[i] {
        assert d.value[i] as int == b[i] as int == s[i] as int;
      }
    }
  }

  lemma EncodeDecode(b: seq<byte>)
    requires DecodeAscii(b).Some?
    ensures EncodeAscii(DecodeAscii(b).value) == b
  {
    var s := DecodeAscii(b).value;
    var e := EncodeAscii(s);
    forall i | 0 <= i < |b| ensures e[i] == b[i] {
      assert e[i] as int == s[i] as int == b[i] as int;
    }
  }

  // ---------------------------------------------------------------------------
  // str.strip() with no argument, on ASCII text

  /** Python's str.isspace() on the ASCII range: tab, line feed, vertical tab,
      form feed, carriage return, the four separators 0x1C-0x1F and space. */
  predicate IsSpace(c: char) {
    var k := c as int;
    k == 32 || 9 <= k <= 13 || 28 <= k <= 31
  }

  predicate AllSpace(s: string) {
    forall k :: 0 <= k < |s| ==> IsSpace(s[k])
  }

  function TrimStart(s: string): (r: string)
    ensures |r| <= |s| && r == s[|s| - |r|..]
    ensures AllSpace(s[..|s| - |r|])
    ensures r == [] || !IsSpace(r[0])
  {
    if |s| > 0 && IsSpace(s[0]) then
      var r := TrimStart(s[1..]);
      var cut := |s| - |r|;
      assert s[1..][cut - 1..] == s[cut..];
      assert s[..cut] == [s[0]] + s[1..][..cut - 1];
      r
    else
      assert s[..0] == [];
      s
  }

  function TrimEnd(s: string): (r: string)
    ensures |r| <= |s| && r == s[..|r|]
    ensures AllSpace(s[|r|..])
    ensures r == [] || !IsSpace(r[|r| - 1])
  {
    if |s| > 0 && IsSpace(s[|s| - 1]) then
      var r := TrimEnd(s[..|s| - 1]);
      assert s[..|s| - 1][..|r|] == s[..|r|];
      assert s[|r|..] == s[..|s| - 1][|r|..] + [s[|s| - 1]];
      r
    else
      assert s[|s|..] == [];
      s
  }

  /** str.strip(): the result neither starts nor ends with white space, and
      it is empty exactly when the input is all white space. StripExact says
      which slice of the input it is. */
  function Strip(s: string): (r: string)
    ensures |r| <= |s|
    ensures r == [] || (!IsSpace(r[0]) && !IsSpace(r[|r| - 1]))
    ensures r == [] <==> AllSpace(s)
  {
    TrimBoth(s);
    TrimEnd(TrimStart(s))
  }

  lemma TrimBoth(s: string)
    ensures var r := TrimEnd(TrimStart(s));
      && (r == [] || (!IsSpace(r[0]) && !IsSpace(r[|r| - 1])))
      && (r == [] <==> AllSpace(s))
  {
    var t := TrimStart(s);
    var r := TrimEnd(t);
    if r == [] {
      assert t[|r|..] == t;
      AllSpaceBeforeTrimmed(s);
    } else {
      assert r[0] == t[0];
      NotAllSpace(s, |s| - |t|);
    }
  }

  lemma AllSpaceBeforeTrimmed(s: string)
    requires AllSpace(TrimStart(s))
    ensures AllSpace(s)
  {
    var t := TrimStart(s);
    var i := |s| - |t|;
    assert s == s[..i] + t;
    AllSpaceAppend(s[..i], t);
  }

  lemma NotAllSpace(s: string, i: nat)
    requires i < |s| && !IsSpace(s[i])
    ensures !AllSpace(s)
  {
  }

  /** Whatever white space surrounds a core that has none at its ends, strip
      returns exactly that core. */
  lemma {:induction false} StripExact(lead: string, core: string, trail: string)
    requires AllSpace(lead) && AllSpace(trail)
    requires core == [] || (!IsSpace(core[0]) && !IsSpace(core[|core| - 1]))
    ensures Strip(lead + core + trail) == core
  {
    assert lead + core + trail == lead + (core + trail);
    if core == [] {
      AllSpaceAppend(lead, trail);
      assert lead + core + trail == lead + trail;
    } else {
      TrimStartSkips(lead, core + trail);
      TrimEndSkips(core, trail);
    }
  }

  lemma {:induction false} TrimStartSkips(lead: string, rest: string)
    requires AllSpace(lead)
    requires rest == [] || !IsSpace(rest[0])
    ensures TrimStart(lead + rest) == rest
  {
    if lead == [] {
      assert lead + rest == rest;
    } else {
      assert (lead + rest)[1..] == lead[1..] + rest;
      TrimStartSkips(lead[1..], rest);
    }
  }

  lemma {:induction false} TrimEndSkips(rest: string, trail: string)
    requires AllSpace(trail)
    requires rest == [] || !IsSpace(rest[|rest| - 1])
    ensures TrimEnd(rest + trail) == rest
  {
    if trail == [] {
      assert rest + trail == rest;
    } else {
      var s := rest + trail;
      assert s[..|s| - 1] == rest + trail[..|trail| - 1];
      TrimEndSkips(rest, trail[..|trail| - 1]);
    }
  }

  lemma AllSpaceAppend(a: string, b: string)
    requires AllSpace(a) && AllSpace(b)
    ensures AllSpace(a + b)
  {
    forall k | 0 <= k < |a + b| ensures IsSpace((a + b)[k]) {
      if k < |a| { assert (a + b)[k] == a[k]; } else { assert (a + b)[k] == b[k - |a|]; }
    }
  }

  lemma {:induction false} StripIdempotent(s: string)
    ensures Strip(Strip(s)) == Strip(s)
  {
    StripUntrimmed(Strip(s));
  }

  /** A text with no white space at either end is left as it is. */
  lemma {:induction false} StripUntrimmed(s: string)
    requires s == [] || (!IsSpace(s[0]) && !IsSpace(s[|s| - 1]))
    ensures Strip(s) == s
  {
    StripExact([], s, []);
    assert [] + s + [] == s;
  }

  // ---------------------------------------------------------------------------
  // str.split(sep) and sep.join(lines)

  /** str.split(sep) for a one-character separator: there is always at least
      one piece (splitting the empty text gives one empty piece), and no piece
      contains the separator. */
  function Split(s: string, sep: char): (r: seq<string>)
    ensures |r| >= 1
    ensures forall i :: 0 <= i < |r| ==> sep !in r[i]
  {
    if s == [] then [""]
    else
      var rest := Split(s[1..], sep);
      if s[0] == sep then [""] + rest
      else [[s[0]] + rest[0]] + rest[1..]
  }

  /** There is one piece more than there are separators in the text. */
  lemma {:induction false} SplitCount(s: string, sep: char)
    ensures |Split(s, sep)| == multiset(s)[sep] + 1
  {
    if s != [] {
      SplitCount(s[1..], sep);
      assert s == [s[0]] + s[1..];
    }
  }

  /** sep.join(lines). */
  function Join(lines: seq<string>, sep: char): string {
    if |lines| == 0 then ""
    else if |lines| == 1 then lines[0]
    else lines[0] + [sep] + Join(lines[1..], sep)
  }

  /** Joining the pieces of a split gives back the text. */
  lemma {:induction false} JoinSplit(s: string, sep: char)
    ensures Join(Split(s, sep), sep) == s
  {
    if s != [] {
      var rest := Split(s[1..], sep);
      JoinSplit(s[1..], sep);
      if s[0] == sep {
        assert Split(s, sep) == [""] + rest;
        assert ([""] + rest)[1..] == rest;
      } else if |rest| > 1 {
        var r := Split(s, sep);
        assert r[1..] == rest[1..];
        assert Join(rest, sep) == rest[0] + [sep] + Join(rest[1..], sep);
      }
    }
  }

  lemma {:induction false} SplitWithoutSeparator(a: string, sep: char)
    requires sep !in a
    ensures Split(a, sep) == [a]
  {
    if a != [] {
      SplitWithoutSeparator(a[1..], sep);
      assert [a[0]] + a[1..] == a;
    }
  }

  lemma {:induction false} SplitAfterPiece(a: string, t: string, sep: char)
    requires sep !in a
    ensures Split(a + [sep] + t, sep) == [a] + Split(t, sep)
  {
    var s := a + [sep] + t;
    if a == [] {
      assert s[1..] == t;
    } else {
      assert s[1..] == a[1..] + [sep] + t;
      SplitAfterPiece(a[1..], t, sep);
      assert [a[0]] + a[1..] == a;
    }
  }

  /** Splitting the join of separator-free pieces gives back the pieces. */
  lemma {:induction false} SplitJoin(lines: seq<string>, sep: char)
    requires |lines| > 0
    requires forall i :: 0 <= i < |lines| ==> sep !in lines[i]
    ensures Split(Join(lines, sep), sep) == lines
  {
    if |lines| == 1 {
      SplitWithoutSeparator(lines[0], sep);
    } else {
      SplitJoin(lines[1..], sep);
      SplitAfterPiece(lines[0], Join(lines[1..], sep), sep);
      assert [lines[0]] + lines[1..] == lines;
    }
  }

  /** Joining two non-empty runs of lines puts one separator between them. */
  lemma {:induction false} JoinAppend(a: seq<string>, b: seq<string>, sep: char)
    requires |a| > 0 && |b| > 0
    ensures Join(a + b, sep) == Join(a, sep) + [sep] + Join(b, sep)
  {
    if |a| == 1 {
      assert (a + b)[1..] == b;
    } else {
      assert (a + b)[1..] == a[1..] + b;
      JoinAppend(a[1..], b, sep);
    }
  }

  // ---------------------------------------------------------------------------
  // str.upper() and searching

  /** Upper case of an ASCII letter; every other character is unchanged. */
  function UpperChar(c: char): char {
    if 'a' <= c <= 'z' then (c as int - 32) as char else c
  }

  /** str.upper() on ASCII: no lower-case letter is left, every character
      is one upper-casing leaves alone, and only lower-case letters change. */
  function ToUpper(s: string): (r: string)
    ensures |r| == |s|
    ensures forall i :: 0 <= i < |r| ==> !('a' <= r[i] <= 'z') && UpperChar(r[i]) == r[i]
    ensures forall i :: 0 <= i < |s| ==> ('a' <= s[i] <= 'z' || r[i] == s[i])
    ensures forall i :: 0 <= i < |s| ==> r[i] == UpperChar(s[i])
  {
    seq(|s|, i requires 0 <= i < |s| => UpperChar(s[i]))
  }

  /** Upper-casing twice is upper-casing once. */
  lemma ToUpperIdempotent(s: string)
    ensures ToUpper(ToUpper(s)) == ToUpper(s)
  {
    var r := ToUpper(s);
    forall i | 0 <= i < |r| ensures ToUpper(r)[i] == r[i] {
      assert UpperChar(r[i]) == r[i];
    }
  }

  /** Position of the first occurrence of `c` in `s`. */
  function IndexOf(s: string, c: char): (k: nat)
    requires c in s
    ensures k < |s| && s[k] == c && c !in s[..k]
  {
    if s[0] == c then 0
    else
      assert s == [s[0]] + s[1..];
      var k := IndexOf(s[1..], c);
      assert s[..k + 1] == [s[0]] + s[1..][..k];
      k + 1
  }
}
