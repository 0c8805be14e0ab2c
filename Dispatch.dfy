/**
 * What is sent to the subcommand of one fragment: the command line, built
 * by substituting the fragment's offset, size and id into each argument
 * token and joining the tokens with single spaces, and the byte stream, the
 * packed global header followed by the fragment's bytes, written in chunks
 * of at most 8192 bytes.
 */
module Dispatch {
  import opened Wrappers
  import opened Bytes
  import opened PcapHeaders

  /** The largest read of the copy loop. */
  const ChunkSize := 8192

  const OffsetField := "{OFFSET}"
  const SizeField := "{SIZE}"
  const FragIdField := "{FRAG_ID}"

  predicate IsDigit(c: char)
  {
    '0' <= c <= '9'
  }

  function DigitChar(d: nat): (c: char)
    requires d < 10
    ensures IsDigit(c)
  {
    "0123456789"[d]
  }

  function DigitValue(c: char): (d: nat)
    requires IsDigit(c)
    ensures d < 10
  {
    c as int - '0' as int
  }

  /** The decimal digits of n, most significant first, without leading zeros. */
  function NatToDecimal(n: nat): (s: string)
    ensures |s| > 0
    ensures forall i :: 0 <= i < |s| ==> IsDigit(s[i])
    ensures |s| > 1 ==> s[0] != '0'
  {
    if n < 10 then [DigitChar(n)] else NatToDecimal(n / 10) + [DigitChar(n % 10)]
  }

  /** How str() renders an int: a '-' before the digits of a negative number. */
  function IntToDecimal(x: int): (s: string)
  {
    if x < 0 then "-" + NatToDecimal(-x) else NatToDecimal(x)
  }

  /** The value of a string of decimal digits. */
  function DigitsValue(s: string): nat
    requires forall i :: 0 <= i < |s| ==> IsDigit(s[i])
  {
    if s == [] then 0 else DigitsValue(s[..|s| - 1]) * 10 + DigitValue(s[|s| - 1])
  }

  /** Reads back what IntToDecimal writes: an optional '-' and at least one digit. */
  function ParseDecimal(s: string): Option<int>
  {
    if |s| > 0 && s[0] == '-' then
      if |s| > 1 && forall i :: 1 <= i < |s| ==> IsDigit(s[i]) then Some(-(DigitsValue(s[1..]) as int)) else None
    else if |s| > 0 && forall i :: 0 <= i < |s| ==> IsDigit(s[i]) then Some(DigitsValue(s))
    else None
  }

  lemma {:induction false} DigitsOfNat(n: nat)
    ensures DigitsValue(NatToDecimal(n)) == n
  {
    if n >= 10 {
      DigitsOfNat(n / 10);
      var s := NatToDecimal(n);
      assert s[..|s| - 1] == NatToDecimal(n / 10);
    }
  }

  /** The rendered number reads back as the same number. */
  lemma DecimalRoundTrip(x: int)
    ensures ParseDecimal(IntToDecimal(x)) == Some(x)
  {
    if x < 0 {
      NegativeRoundTrip(-x);
    } else {
      NatRoundTrip(x);
    }
  }

  lemma NatRoundTrip(x: int)
    requires x >= 0
    ensures ParseDecimal(IntToDecimal(x)) == Some(x)
  {
    var s := NatToDecimal(x);
    assert IntToDecimal(x) == s;
    DigitsOfNat(x);
    assert IsDigit(s[0]);
  }

  lemma NegativeRoundTrip(n: nat)
    requires n > 0
    ensures ParseDecimal(IntToDecimal(-(n as int))) == Some(-(n as int))
  {
    var d := NatToDecimal(n);
    assert IntToDecimal(-(n as int)) == "-" + d;
    DigitsOfNat(n);
    ParseSigned(d);
  }

  /** A '-' before a non-empty run of digits reads as the negated value of the digits. */
  lemma ParseSigned(d: string)
    requires |d| > 0 && forall i :: 0 <= i < |d| ==> IsDigit(d[i])
    ensures ParseDecimal("-" + d) == Some(-(DigitsValue(d) as int))
  {
    var s := "-" + d;
    assert s[1..] == d;
    forall i | 1 <= i < |s| ensures IsDigit(s[i]) {
      assert s[i] == d[i - 1];
    }
  }

  /** A rendered number holds neither a space nor a brace. */
  lemma DecimalIsPlain(x: int)
    ensures ' ' !in IntToDecimal(x) && '{' !in IntToDecimal(x) && '}' !in IntToDecimal(x)
  {
    var s := IntToDecimal(x);
    forall i | 0 <= i < |s| ensures s[i] != ' ' && s[i] != '{' && s[i] != '}' {
      if x < 0 && i > 0 {
        assert s[i] == NatToDecimal(-x)[i - 1];
      }
    }
  }

  /**
   * An argument token with each {OFFSET}, {SIZE} and {FRAG_ID} replaced by
   * the decimal value, scanning left to right; every other character is kept.
   */
  function Substitute(token: string, offset: int, size: int, fragId: int): string
    decreases |token|
  {
    if token == [] then []
    else if OffsetField <= token then IntToDecimal(offset) + Substitute(token[|OffsetField|..], offset, size, fragId)
    else if SizeField <= token then IntToDecimal(size) + Substitute(token[|SizeField|..], offset, size, fragId)
    else if FragIdField <= token then IntToDecimal(fragId) + Substitute(token[|FragIdField|..], offset, size, fragId)
    else [token[0]] + Substitute(token[1..], offset, size, fragId)
  }

  /** Text without a '{' passes through unchanged, and the rest of the token is substituted after it. */
  lemma {:induction false} SubstituteLiteralPrefix(lit: string, rest: string, offset: int, size: int, fragId: int)
    requires '{' !in lit
    ensures Substitute(lit + rest, offset, size, fragId) == lit + Substitute(rest, offset, size, fragId)
  {
    if lit != [] {
      var t := lit + rest;
      assert t[0] == lit[0] && lit[0] in lit;
      assert t[1..] == lit[1..] + rest;
      assert t != [];
      assert Substitute(t, offset, size, fragId) == [t[0]] + Substitute(t[1..], offset, size, fragId);
      SubstituteLiteralPrefix(lit[1..], rest, offset, size, fragId);
      assert [lit[0]] + lit[1..] == lit;
      assert [lit[0]] + (lit[1..] + Substitute(rest, offset, size, fragId)) == lit + Substitute(rest, offset, size, fragId);
    } else {
      assert lit + rest == rest;
    }
  }

  /** A token holding neither '{' nor '}' is passed through unchanged. */
  lemma SubstituteLiteral(token: string, offset: int, size: int, fragId: int)
    requires '{' !in token && '}' !in token
    ensures Substitute(token, offset, size, fragId) == token
  {
    SubstituteLiteralPrefix(token, [], offset, size, fragId);
    assert token + [] == token;
  }

  /** Each placeholder at the head of a token becomes the decimal value. */
  lemma SubstituteFields(rest: string, offset: int, size: int, fragId: int)
    ensures Substitute(OffsetField + rest, offset, size, fragId) == IntToDecimal(offset) + Substitute(rest, offset, size, fragId)
    ensures Substitute(SizeField + rest, offset, size, fragId) == IntToDecimal(size) + Substitute(rest, offset, size, fragId)
    ensures Substitute(FragIdField + rest, offset, size, fragId) == IntToDecimal(fragId) + Substitute(rest, offset, size, fragId)
  {
    assert (OffsetField + rest)[|OffsetField|..] == rest;
    assert (SizeField + rest)[|SizeField|..] == rest;
    assert (FragIdField + rest)[|FragIdField|..] == rest;
    assert (SizeField + rest)[1] == 'S' && (FragIdField + rest)[1] == 'F' && OffsetField[1] == 'O' && SizeField[1] == 'S';
    assert OffsetField <= OffsetField + rest;
    assert SizeField <= SizeField + rest;
    assert FragIdField <= FragIdField + rest;
  }

  /** Substitution puts no space into a token that had none. */
  lemma {:induction false} SubstituteKeepsNoSpace(token: string, offset: int, size: int, fragId: int)
    requires ' ' !in token
    decreases |token|
    ensures ' ' !in Substitute(token, offset, size, fragId)
  {
    if token != [] {
      DecimalIsPlain(offset);
      DecimalIsPlain(size);
      DecimalIsPlain(fragId);
      if OffsetField <= token {
        SubstituteKeepsNoSpace(token[|OffsetField|..], offset, size, fragId);
      } else if SizeField <= token {
        SubstituteKeepsNoSpace(token[|SizeField|..], offset, size, fragId);
      } else if FragIdField <= token {
        SubstituteKeepsNoSpace(token[|FragIdField|..], offset, size, fragId);
      } else {
        assert token[0] in token;
        SubstituteKeepsNoSpace(token[1..], offset, size, fragId);
      }
    }
  }

  /** ' '.join(tokens). */
  function Join(tokens: seq<string>): string
  {
    if tokens == [] then ""
    else if |tokens| == 1 then tokens[0]
    else tokens[0] + " " + Join(tokens[1..])
  }

  /** The text before the first space of s, and whether one was found; the inverse used to read Join back. */
  function SplitOnce(s: string): (r: (string, Option<string>))
    ensures ' ' !in r.0
    ensures r.1.None? ==> r.0 == s
    ensures r.1.Some? ==> s == r.0 + " " + r.1.value
  {
    if s == [] then ("", None)
    else if s[0] == ' ' then ("", Some(s[1..]))
    else
      var t := SplitOnce(s[1..]);
      ([s[0]] + t.0, t.1)
  }

  /** s cut at every space, as str.split(' ') does. */
  function Split(s: string): (r: seq<string>)
    decreases |s|
    ensures |r| > 0
  {
    var t := SplitOnce(s);
    match t.1
    case None => [t.0]
    case Some(rest) => [t.0] + Split(rest)
  }

  lemma {:induction false} SplitOnceOfParts(a: string, b: Option<string>)
    requires ' ' !in a
    ensures SplitOnce(if b.Some? then a + " " + b.value else a) == (a, b)
  {
    var s := if b.Some? then a + " " + b.value else a;
    if a != [] {
      assert s[0] == a[0] && a[0] in a;
      assert s[1..] == if b.Some? then a[1..] + " " + b.value else a[1..];
      SplitOnceOfParts(a[1..], b);
      assert [a[0]] + a[1..] == a;
    } else if b.Some? {
      assert s[1..] == b.value;
    }
  }

  /** Joining tokens that hold no space and splitting the result gives the tokens back. */
  lemma {:induction false} SplitJoin(tokens: seq<string>)
    requires |tokens| > 0
    requires forall i :: 0 <= i < |tokens| ==> ' ' !in tokens[i]
    ensures Split(Join(tokens)) == tokens
  {
    if |tokens| == 1 {
      SplitOnceOfParts(tokens[0], None);
    } else {
      SplitOnceOfParts(tokens[0], Some(Join(tokens[1..])));
      SplitJoin(tokens[1..]);
    }
  }

  /** Each argument token with the fragment's values substituted. */
  function SubstitutedTokens(args: seq<string>, offset: int, size: int, fragId: int): (r: seq<string>)
    ensures |r| == |args|
    ensures forall i :: 0 <= i < |args| ==> r[i] == Substitute(args[i], offset, size, fragId)
  {
    if args == [] then [] else [Substitute(args[0], offset, size, fragId)] + SubstitutedTokens(args[1..], offset, size, fragId)
  }

  /** The shell command of a fragment. */
  function CommandLine(args: seq<string>, offset: int, size: int, fragId: int): string
  {
    Join(SubstitutedTokens(args, offset, size, fragId))
  }

  /**
   * When no argument holds a space, the command line splits at its spaces
   * into exactly the substituted arguments, one per argument.
   */
  lemma CommandLineTokens(args: seq<string>, offset: int, size: int, fragId: int)
    requires |args| > 0
    requires forall i :: 0 <= i < |args| ==> ' ' !in args[i]
    ensures Split(CommandLine(args, offset, size, fragId)) == SubstitutedTokens(args, offset, size, fragId)
  {
    var tokens := SubstitutedTokens(args, offset, size, fragId);
    forall i | 0 <= i < |tokens| ensures ' ' !in tokens[i] {
      SubstituteKeepsNoSpace(args[i], offset, size, fragId);
    }
    SplitJoin(tokens);
  }

  /** The fragment's bytes: what seek(offset) and reads totalling size bytes return. */
  function FragmentData(file: seq<Byte>, offset: nat, size: int): seq<Byte>
  {
    ReadAt(file, offset, Max(size, 0))
  }

  /** Everything written to the subcommand's input for one fragment. */
  function FragmentStream(h: FileHeader, file: seq<Byte>, offset: nat, size: int): seq<Byte>
  {
    PackHeader(h) + FragmentData(file, offset, size)
  }

  /** The stream is the 24 header bytes followed by exactly the size bytes at offset in the file. */
  lemma FragmentStreamParts(h: FileHeader, file: seq<Byte>, offset: nat, size: int)
    requires size > 0 ==> offset + size <= |file|
    ensures var stream := FragmentStream(h, file, offset, size);
            && |stream| == FileHeaderLength + Max(size, 0)
            && stream[..FileHeaderLength] == PackHeader(h)
            && (size > 0 ==> stream[FileHeaderLength..] == file[offset..offset + size])
  {
    var stream := FragmentStream(h, file, offset, size);
    var data := FragmentData(file, offset, size);
    assert stream[FileHeaderLength..] == data;
    if size > 0 {
      assert data == file[offset..offset + size];
    }
  }

  /** A subcommand reading the first 24 bytes of the stream decodes the header back. */
  lemma FragmentStreamHeader(h: FileHeader, file: seq<Byte>, offset: nat, size: int)
    requires DecodableHeader(h)
    ensures UnpackFileHeader(FragmentStream(h, file, offset, size)[..FileHeaderLength]) == Ok(h)
  {
    var stream := FragmentStream(h, file, offset, size);
    assert stream[..FileHeaderLength] == PackHeader(h);
    UnpackPackHeader(h);
  }

  /** How the copy loop cuts data into reads: 8192 bytes while more than 8192 are left, then the rest. */
  function Chunked(data: seq<Byte>): seq<seq<Byte>>
    decreases |data|
  {
    if |data| == 0 then []
    else if |data| > ChunkSize then [data[..ChunkSize]] + Chunked(data[ChunkSize..])
    else [data]
  }

  /** The concatenation of the writes. */
  function Flatten(chunks: seq<seq<Byte>>): seq<Byte>
  {
    if chunks == [] then [] else chunks[0] + Flatten(chunks[1..])
  }

  lemma FlattenAppend(a: seq<seq<Byte>>, b: seq<seq<Byte>>)
    ensures Flatten(a + b) == Flatten(a) + Flatten(b)
  {
    if a != [] {
      assert (a + b)[0] == a[0];
      assert (a + b)[1..] == a[1..] + b;
      FlattenAppend(a[1..], b);
      assert Flatten(a + b) == a[0] + Flatten(a[1..] + b);
      assert a[0] + (Flatten(a[1..]) + Flatten(b)) == (a[0] + Flatten(a[1..])) + Flatten(b);
    } else {
      assert a + b == b;
    }
  }

  /** The header write followed by the chunk writes carries exactly the fragment stream. */
  lemma WritesAreStream(h: FileHeader, file: seq<Byte>, offset: nat, size: int)
    ensures Flatten([PackHeader(h)] + Chunked(FragmentData(file, offset, size))) == FragmentStream(h, file, offset, size)
  {
    var data := FragmentData(file, offset, size);
    ChunkedShape(data);
    FlattenAppend([PackHeader(h)], Chunked(data));
    assert Flatten([PackHeader(h)]) == PackHeader(h) + Flatten([]);
  }

  /**
   * The chunks put back together are the data; none is empty or longer than
   * 8192 bytes, all but the last are exactly 8192, and there are as many as
   * 8192-byte blocks needed to hold the data.
   */
  lemma {:induction false} ChunkedShape(data: seq<Byte>)
    decreases |data|
    ensures var chunks := Chunked(data);
            && Flatten(chunks) == data
            && (forall i :: 0 <= i < |chunks| ==> 0 < |chunks[i]| <= ChunkSize)
            && (forall i :: 0 <= i < |chunks| - 1 ==> |chunks[i]| == ChunkSize)
            && |chunks| == (|data| + ChunkSize - 1) / ChunkSize
  {
    if |data| > ChunkSize {
      var rest := data[ChunkSize..];
      ChunkedShape(rest);
      assert data == data[..ChunkSize] + rest;
      assert (|data| + ChunkSize - 1) / ChunkSize == (|rest| + ChunkSize - 1) / ChunkSize + 1;
    } else if |data| > 0 {
      assert Flatten([data]) == data + Flatten([]);
    }
  }
}
