/** `printf` of the C library, with its output as a sequence of bytes. */
module Printf {
  import opened Bits

  const INT_MAX: int := 0x7FFF_FFFF
  const PERCENT: Byte := 37
  const MINUS: Byte := 45

  // Numbers.

  /** `rem + '0'` or `rem - 10 + 'a'`. */
  function DigitChar(d: nat): Byte
    requires d < 16
  {
    if d < 10 then d + 48 else d - 10 + 97
  }

  /** The digits in their order: 0 to 9, then a to f. */
  lemma DigitTable(d: nat)
    requires d < 16
    ensures DigitChar(d) == [48, 49, 50, 51, 52, 53, 54, 55, 56, 57, 97, 98, 99, 100, 101, 102][d]
  {
  }

  function CharDigit(c: Byte): int { if c < 58 then c - 48 else c - 97 + 10 }

  /** The digits of `n`, highest first; none for zero. */
  function Digits(n: nat, base: nat): (r: seq<Byte>)
    requires base == 10 || base == 16
    ensures r == [] <==> n == 0
    ensures r != [] ==> r[0] != 48
    decreases n
  {
    if n == 0 then [] else Digits(n / base, base) + [DigitChar(n % base)]
  }

  function Parse(s: seq<Byte>, base: nat): int {
    if s == [] then 0 else base * Parse(s[..|s| - 1], base) + CharDigit(s[|s| - 1])
  }

  lemma {:induction false} ParseDigits(n: nat, base: nat)
    requires base == 10 || base == 16
    ensures Parse(Digits(n, base), base) == n
    decreases n
  {
    if n > 0 {
      ParseDigits(n / base, base);
      ParseSnoc(Digits(n / base, base), n % base, base);
      if base == 10 { assert n == 10 * (n / 10) + n % 10; } else { assert n == 16 * (n / 16) + n % 16; }
    }
  }

  lemma ParseSnoc(s: seq<Byte>, d: nat, base: nat)
    requires d < 16
    ensures Parse(s + [DigitChar(d)], base) == base * Parse(s, base) + d
  {
  }

  function PowerOf(base: nat, k: nat): nat { if k == 0 then 1 else base * PowerOf(base, k - 1) }

  lemma {:induction false} DigitCount(n: nat, base: nat, k: nat)
    requires (base == 10 || base == 16) && n < PowerOf(base, k)
    ensures |Digits(n, base)| <= k
    decreases k
  {
    if n > 0 {
      if base == 10 { assert n / 10 < PowerOf(10, k - 1); } else { assert n / 16 < PowerOf(16, k - 1); }
      DigitCount(n / base, base, k - 1);
    }
  }

  /** Ten digits are enough for 32 bits. */
  lemma TenDigits(n: nat, base: nat)
    requires (base == 10 || base == 16) && n < U32
    ensures |Digits(n, base)| <= 10
  {
    if base == 10 {
      assert PowerOf(10, 5) == 100000;
      assert PowerOf(10, 10) == 10000000000;
      DigitCount(n, 10, 10);
    } else {
      assert PowerOf(16, 4) == 0x1_0000;
      assert PowerOf(16, 8) == U32;
      DigitCount(n, 16, 8);
    }
  }

  type Int32 = n: int | -0x8000_0000 <= n < 0x8000_0000

  /** The magnitude that is converted, as an unsigned 32-bit value; `-num` is taken without overflow. */
  function Magnitude(num: Int32, hex: bool): nat { if !hex && num < 0 then 0 - num else num % 0x1_0000_0000 }

  /** What `%d` and `%x` print. */
  function NumberText(num: Int32, hex: bool): seq<Byte> {
    if num == 0 then [48]
    else (if !hex && num < 0 then [MINUS] else []) + Digits(Magnitude(num, hex), if hex then 16 else 10)
  }

  /** The number that a text with an optional sign denotes. */
  function ParseSigned(s: seq<Byte>, base: nat): int {
    if s != [] && s[0] == MINUS then -Parse(s[1..], base) else Parse(s, base)
  }

  lemma SignReadsBack(n: nat, base: nat)
    requires base == 10 || base == 16
    ensures ParseSigned(Digits(n, base), base) == n && ParseSigned([MINUS] + Digits(n, base), base) == 0 - n
  {
    var d := Digits(n, base);
    ParseDigits(n, base);
    DigitsNoMinus(n, base);
    assert ([MINUS] + d)[1..] == d;
  }

  /** `%d` text reads back as the argument, `%x` text as its 32 bits. */
  lemma NumberReadsBack(num: Int32, hex: bool)
    ensures ParseSigned(NumberText(num, hex), if hex then 16 else 10) == if hex then num % 0x1_0000_0000 else num
  {
    var s, base := NumberText(num, hex), if hex then 16 else 10;
    if num == 0 {
      assert s[..0] == [] && Parse([], base) == 0;
    } else {
      var d := Digits(Magnitude(num, hex), base);
      SignReadsBack(Magnitude(num, hex), base);
      assert [] + d == d;
    }
  }

  lemma {:induction false} DigitsNoMinus(n: nat, base: nat)
    requires base == 10 || base == 16
    ensures forall i :: 0 <= i < |Digits(n, base)| ==> Digits(n, base)[i] != MINUS
    decreases n
  {
    if n > 0 { DigitsNoMinus(n / base, base); }
  }

  /** No leading zero except for zero itself, and at most ten digits and a sign. */
  lemma NumberIsShort(num: Int32, hex: bool)
    ensures 0 < |NumberText(num, hex)| <= 11
    ensures NumberText(num, hex)[0] == 48 <==> num == 0
  {
    TenDigits(Magnitude(num, hex), if hex then 16 else 10);
  }

  // Formats.

  datatype Arg = Int(n: Int32) | Str(s: seq<Byte>)

  /** A piece of output; text is checked against the limit before it is printed, a number is not. */
  datatype Piece = Text(s: seq<Byte>) | Number(s: seq<Byte>)

  /** How far literal text reaches: at least one character, and then up to the next percent sign. */
  function LiteralLength(f: seq<Byte>, n: nat): (k: nat)
    requires n <= |f|
    ensures n <= k <= |f| && (forall i :: n <= i < k ==> f[i] != PERCENT) && (k < |f| ==> f[k] == PERCENT)
    decreases |f| - n
  {
    if n == |f| || f[n] == PERCENT then n else LiteralLength(f, n + 1)
  }

  lemma LiteralLengthIs(f: seq<Byte>, n: nat, k: nat)
    requires n <= k <= |f| && (forall i :: n <= i < k ==> f[i] != PERCENT) && (k < |f| ==> f[k] == PERCENT)
    ensures LiteralLength(f, n) == k
  {
  }

  predicate IsLiteral(f: seq<Byte>)
    requires f != []
  {
    f[0] != PERCENT || (|f| > 1 && f[1] == PERCENT)
  }

  /** The first of two percent signs is skipped, and the second printed as text. */
  function LiteralStart(f: seq<Byte>): (g: seq<Byte>)
    requires f != [] && IsLiteral(f)
    ensures g != [] && |g| <= |f|
  {
    if f[0] == PERCENT then f[1..] else f
  }

  predicate IsSpec(f: seq<Byte>, c: Byte) { |f| > 1 && f[1] == c }

  /** Every conversion finds an argument of its type. */
  predicate ArgsFit(f: seq<Byte>, args: seq<Arg>)
    decreases |f|
  {
    if f == [] then true
    else if IsLiteral(f) then
      var g := LiteralStart(f);
      ArgsFit(g[LiteralLength(g, 1)..], args)
    else if IsSpec(f, 99) || IsSpec(f, 100) || IsSpec(f, 120) then
      args != [] && args[0].Int? && ArgsFit(f[2..], args[1..])
    else if IsSpec(f, 115) then args != [] && args[0].Str? && ArgsFit(f[2..], args[1..])
    else true
  }

  /** The pieces that a format asks for; an unknown conversion prints itself and all that follows it. */
  function Pieces(f: seq<Byte>, args: seq<Arg>): seq<Piece>
    requires ArgsFit(f, args)
    decreases |f|
  {
    if f == [] then []
    else if IsLiteral(f) then
      var g := LiteralStart(f);
      [Text(g[..LiteralLength(g, 1)])] + Pieces(g[LiteralLength(g, 1)..], args)
    else if IsSpec(f, 99) then [Text([args[0].n % 256])] + Pieces(f[2..], args[1..])
    else if IsSpec(f, 115) then [Text(args[0].s)] + Pieces(f[2..], args[1..])
    else if IsSpec(f, 100) then [Number(NumberText(args[0].n, false))] + Pieces(f[2..], args[1..])
    else if IsSpec(f, 120) then [Number(NumberText(args[0].n, true))] + Pieces(f[2..], args[1..])
    else [Text(f)]
  }

  function Full(pieces: seq<Piece>): seq<Byte> {
    if pieces == [] then [] else pieces[0].s + Full(pieces[1..])
  }

  // The same, read character by character.

  /**
   What a format asks for: a character other than a percent sign is itself; behind a percent sign, another one stands
   for itself, `c` for a character, `s` for a string, `d` and `x` for a number; anything else is printed as it is,
   with all that follows.
   */
  function Output(f: seq<Byte>, args: seq<Arg>): seq<Byte>
    decreases |f|
  {
    if f == [] then []
    else if f[0] != 37 then [f[0]] + Output(f[1..], args)
    else if |f| == 1 then f
    else if f[1] == 37 then [37] + Output(f[2..], args)
    else if f[1] == 99 && args != [] && args[0].Int? then [args[0].n % 256] + Output(f[2..], args[1..])
    else if f[1] == 115 && args != [] && args[0].Str? then args[0].s + Output(f[2..], args[1..])
    else if f[1] == 100 && args != [] && args[0].Int? then NumberText(args[0].n, false) + Output(f[2..], args[1..])
    else if f[1] == 120 && args != [] && args[0].Int? then NumberText(args[0].n, true) + Output(f[2..], args[1..])
    else f
  }

  lemma {:induction false} LiteralOutput(f: seq<Byte>, k: nat, args: seq<Arg>)
    requires k <= |f| && forall i :: 0 <= i < k ==> f[i] != 37
    ensures Output(f, args) == f[..k] + Output(f[k..], args)
    decreases k
  {
    if k > 0 {
      LiteralOutput(f[1..], k - 1, args);
      assert f[1..][k - 1..] == f[k..] && [f[0]] + f[1..][..k - 1] == f[..k];
    } else {
      assert f[0..] == f && f[..0] == [];
    }
  }

  /** Whatever the pieces, together they are that. */
  lemma {:induction false} PiecesPrint(f: seq<Byte>, args: seq<Arg>)
    requires ArgsFit(f, args)
    ensures Full(Pieces(f, args)) == Output(f, args)
    decreases |f|
  {
    if f == [] {
    } else if IsLiteral(f) {
      var g := LiteralStart(f);
      var k := LiteralLength(g, 1);
      PiecesPrint(g[k..], args);
      LiteralPrint(f, g, k, args);
    } else if IsSpec(f, 99) || IsSpec(f, 100) || IsSpec(f, 115) || IsSpec(f, 120) {
      PiecesPrint(f[2..], args[1..]);
    }
  }

  lemma LiteralPrint(f: seq<Byte>, g: seq<Byte>, k: nat, args: seq<Arg>)
    requires f != [] && IsLiteral(f) && g == LiteralStart(f) && k == LiteralLength(g, 1)
    ensures Output(f, args) == g[..k] + Output(g[k..], args)
  {
    LiteralOutput(g[1..], k - 1, args);
    assert g[1..][k - 1..] == g[k..] && [g[0]] + g[1..][..k - 1] == g[..k];
    if f[0] == PERCENT { assert g[1..] == f[2..]; }
  }

  /** The conversions, one by one: `%%`, `%c`, `%s`, and the numbers that the text of `%d` and `%x` denotes. */
  lemma OneConversion(n: Int32, s: seq<Byte>, args: seq<Arg>)
    ensures Output([37, 37], args) == [37]
    ensures Output([37, 99], [Int(n)]) == [n % 256]
    ensures Output([37, 115], [Str(s)]) == s
    ensures ParseSigned(Output([37, 100], [Int(n)]), 10) == n
    ensures ParseSigned(Output([37, 120], [Int(n)]), 16) == n % 0x1_0000_0000
  {
    NumberConversion(n, [37, 100], false);
    NumberConversion(n, [37, 120], true);
    StringConversion(s, [37, 115]);
  }

  lemma StringConversion(s: seq<Byte>, f: seq<Byte>)
    requires f == [37, 115]
    ensures Output(f, [Str(s)]) == s
  {
    assert Output(f[2..], [Str(s)][1..]) == [];
    assert s + [] == s;
  }

  lemma NumberConversion(n: Int32, f: seq<Byte>, hex: bool)
    requires f == [37, if hex then 120 else 100]
    ensures ParseSigned(Output(f, [Int(n)]), if hex then 16 else 10) == if hex then n % 0x1_0000_0000 else n
  {
    NumberReadsBack(n, hex);
    assert Output(f[2..], [Int(n)][1..]) == [];
    assert NumberText(n, hex) + [] == NumberText(n, hex);
  }

  /** What is printed when `written` characters were printed before. */
  function Emitted(pieces: seq<Piece>, written: nat): seq<Byte> {
    if pieces == [] || (pieces[0].Text? && written + |pieces[0].s| > INT_MAX) then []
    else pieces[0].s + Emitted(pieces[1..], written + |pieces[0].s|)
  }

  function Returned(pieces: seq<Piece>, written: nat): int {
    if pieces == [] then written
    else if pieces[0].Text? && written + |pieces[0].s| > INT_MAX then -1
    else Returned(pieces[1..], written + |pieces[0].s|)
  }

  /** No number makes the count exceed an `int`. */
  predicate NumbersFit(pieces: seq<Piece>, written: nat) {
    if pieces == [] || (pieces[0].Text? && written + |pieces[0].s| > INT_MAX) then true
    else written + |pieces[0].s| <= INT_MAX && NumbersFit(pieces[1..], written + |pieces[0].s|)
  }

  /** Output within the limit is printed whole and counted. */
  lemma {:induction false} WithinLimit(pieces: seq<Piece>, written: nat)
    requires written + |Full(pieces)| <= INT_MAX
    ensures NumbersFit(pieces, written) && Emitted(pieces, written) == Full(pieces)
    ensures Returned(pieces, written) == written + |Full(pieces)|
  {
    if pieces != [] { WithinLimit(pieces[1..], written + |pieces[0].s|); }
  }

  /** Otherwise the call fails, and what it printed is cut short before the piece that does not fit. */
  lemma {:induction false} BeyondLimit(pieces: seq<Piece>, written: nat)
    requires written + |Full(pieces)| > INT_MAX >= written && NumbersFit(pieces, written)
    ensures Returned(pieces, written) == -1
    ensures Emitted(pieces, written) <= Full(pieces) && written + |Emitted(pieces, written)| <= INT_MAX
  {
    if pieces[0].Number? || written + |pieces[0].s| <= INT_MAX {
      BeyondLimit(pieces[1..], written + |pieces[0].s|);
    }
  }

  lemma PrintsOutput(pieces: seq<Piece>, before: seq<Byte>)
    requires NumbersFit(pieces, 0)
    ensures if |Full(pieces)| <= INT_MAX
            then Emitted(pieces, 0) == Full(pieces) && Returned(pieces, 0) == |Full(pieces)|
            else Returned(pieces, 0) == -1 && before + Emitted(pieces, 0) <= before + Full(pieces)
  {
    if |Full(pieces)| <= INT_MAX { WithinLimit(pieces, 0); } else { BeyondLimit(pieces, 0); }
  }

  class Console {
    var output: seq<Byte>

    constructor ()
      ensures output == []
    {
      output := [];
    }

    /** `putchar` echoes its argument. */
    method Putchar(ic: int) returns (r: int)
      modifies this
      ensures r == ic && output == old(output) + [ic % 256]
    {
      output := output + [ic % 256];
      return ic;
    }

    /** `print` never fails: no unsigned byte is EOF. */
    method Print(data: seq<Byte>) returns (ok: bool)
      modifies this
      ensures ok && output == old(output) + data
    {
      for i := 0 to |data|
        invariant output == old(output) + data[..i]
      {
        var c := Putchar(data[i]);
        if c == -1 {
          return false;
        }
        assert data[..i + 1] == data[..i] + [data[i]];
      }
      assert data[..|data|] == data;
      return true;
    }

    /** The digits of a nonzero number: filled in from the lowest, then printed from the highest. */
    method PrintDigits(n: nat, base: nat) returns (count: nat)
      requires (base == 10 || base == 16) && 0 < n < U32
      modifies this
      ensures output == old(output) + Digits(n, base) && count == |Digits(n, base)|
    {
      TenDigits(n, base);
      var buffer := new Byte[32];
      var i := FillDigits(buffer, n, base);
      count := DrainDigits(buffer, i, Digits(n, base));
    }

    method FillDigits(buffer: array<Byte>, n0: nat, base: nat) returns (i: nat)
      requires (base == 10 || base == 16) && |Digits(n0, base)| <= buffer.Length
      modifies buffer
      ensures i == |Digits(n0, base)| && forall j :: 0 <= j < i ==> buffer[j] == Digits(n0, base)[i - 1 - j]
    {
      ghost var d := Digits(n0, base);
      var n: nat := n0;
      i := 0;
      while n > 0
        invariant |d| == |Digits(n, base)| + i && Digits(n, base) == d[..|d| - i]
        invariant forall j :: 0 <= j < i ==> buffer[j] == d[|d| - 1 - j]
        decreases n
      {
        var rem := n % base;
        LastDigit(n, base);
        assert d[|d| - 1 - i] == d[..|d| - i][|d| - 1 - i];
        assert d[..|d| - i][..|d| - i - 1] == d[..|d| - i - 1];
        buffer[i] := DigitChar(rem);
        i, n := i + 1, n / base;
      }
    }

    static lemma LastDigit(n: nat, base: nat)
      requires (base == 10 || base == 16) && n > 0
      ensures var d := Digits(n, base); d[|d| - 1] == DigitChar(n % base) && d[..|d| - 1] == Digits(n / base, base)
    {
    }

    method DrainDigits(buffer: array<Byte>, i0: nat, ghost d: seq<Byte>) returns (count: nat)
      requires i0 == |d| <= buffer.Length && forall j :: 0 <= j < i0 ==> buffer[j] == d[|d| - 1 - j]
      modifies this
      ensures output == old(output) + d && count == |d|
    {
      var i := i0;
      count := 0;
      assert output == old(output) + d[..0];
      while i > 0
        invariant 0 <= i <= |d| && count == |d| - i && output == old(output) + d[..|d| - i]
      {
        i := i - 1;
        var ok := Print([buffer[i]]);
        assert d[..|d| - i] == d[..|d| - i - 1] + [buffer[i]];
        count := count + 1;
      }
      assert d[..|d|] == d;
    }

    /** `%d` and `%x` */
    method PrintNumber(num: Int32, hex: bool) returns (count: nat)
      modifies this
      ensures output == old(output) + NumberText(num, hex) && count == |NumberText(num, hex)|
    {
      if num == 0 {
        var ok := Print([48]);
        return 1;
      }
      if !hex && num < 0 {
        var ok := Print([45]);
        ghost var signed := output;
        count := PrintDigits(0 - num, 10);
        assert output == old(output) + ([MINUS] + Digits(0 - num, 10));
        count := count + 1;
      } else {
        count := PrintDigits(num % 0x1_0000_0000, if hex then 16 else 10);
        ghost var d := Digits(Magnitude(num, hex), if hex then 16 else 10);
        assert [] + d == d;
      }
    }

    /** The scan for the end of literal text. */
    method LiteralAmount(f: seq<Byte>) returns (amount: nat)
      requires f != []
      ensures amount == LiteralLength(f, 1)
    {
      amount := 1;
      while amount < |f| && f[amount] != PERCENT
        invariant 1 <= amount <= |f| && forall i :: 1 <= i < amount ==> f[i] != PERCENT
      {
        amount := amount + 1;
      }
      LiteralLengthIs(f, 1, amount);
    }

    /** Prints a text if it fits. */
    method PrintText(text: seq<Byte>, written: nat) returns (ok: bool)
      requires written <= INT_MAX
      modifies this
      ensures ok == (written + |text| <= INT_MAX) && output == if ok then old(output) + text else old(output)
    {
      var maxrem := INT_MAX - written;
      if maxrem < |text| {
        return false;
      }
      ok := Print(text);
    }

    method Printf(format: seq<Byte>, args: seq<Arg>) returns (r: int)
      requires ArgsFit(format, args) && NumbersFit(Pieces(format, args), 0)
      modifies this
      ensures output == old(output) + Emitted(Pieces(format, args), 0) && r == Returned(Pieces(format, args), 0)
      ensures var text := Output(format, args);
              if |text| <= INT_MAX then output == old(output) + text && r == |text|
              else r == -1 && output <= old(output) + text
    {
      PiecesPrint(format, args);
      PrintsOutput(Pieces(format, args), output);
      var f, rest, written: nat := format, args, 0;
      ghost var all := Pieces(format, args);
      while f != []
        invariant ArgsFit(f, rest) && written <= INT_MAX && NumbersFit(Pieces(f, rest), written)
        invariant Returned(Pieces(f, rest), written) == Returned(all, 0)
        invariant output + Emitted(Pieces(f, rest), written) == old(output) + Emitted(all, 0)
        decreases |f|
      {
        ghost var pieces, before := Pieces(f, rest), output;
        var ok, n, f', rest' := PrintPiece(f, rest, written);
        if !ok {
          assert before + [] == before;
          return -1;
        }
        ghost var first, later := pieces[0].s, Emitted(pieces[1..], written + n);
        assert before + first + later == before + (first + later);
        f, rest, written := f', rest', written + n;
      }
      assert output + [] == output;
      return written;
    }

    /** One round of the loop: prints the first piece, unless it is text that does not fit. */
    method PrintPiece(f: seq<Byte>, args: seq<Arg>, written: nat) returns (ok: bool, n: nat, f': seq<Byte>,
                      args': seq<Arg>)
      requires f != [] && ArgsFit(f, args) && written <= INT_MAX
      modifies this
      ensures var pieces := Pieces(f, args);
              && pieces != [] && n == |pieces[0].s| && |f'| < |f| && ArgsFit(f', args')
              && pieces[1..] == Pieces(f', args')
              && (!ok <==> pieces[0].Text? && written + n > INT_MAX)
              && output == if ok then old(output) + pieces[0].s else old(output)
    {
      ghost var pieces := Pieces(f, args);
      if f[0] != PERCENT || (|f| > 1 && f[1] == PERCENT) {
        var g := if f[0] == PERCENT then f[1..] else f;
        var amount := LiteralAmount(g);
        ok := PrintText(g[..amount], written);
        n, f', args' := amount, g[amount..], args;
        return;
      }
      if |f| > 1 && f[1] == 99 {
        ok := PrintText([args[0].n % 256], written);
        n, f', args' := 1, f[2..], args[1..];
      } else if |f| > 1 && f[1] == 115 {
        ok := PrintText(args[0].s, written);
        n, f', args' := |args[0].s|, f[2..], args[1..];
      } else if |f| > 1 && (f[1] == 100 || f[1] == 120) {
        n := PrintNumber(args[0].n, f[1] == 120);
        ok, f', args' := true, f[2..], args[1..];
      } else {
        ok := PrintText(f, written);
        n, f', args' := |f|, [], args;
      }
    }
  }
}
