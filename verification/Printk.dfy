/**
 The scanner of _printk: text is passed through, "%%" prints a percent sign, and the known
 conversions consume one argument each.
 */
module Printk {
  import opened Numerals

  datatype Kind = C | D | LD | SD | SLD | X | LX | B | LB | S

  /** An argument, with the type va_arg has to be called with to get it. */
  datatype Arg =
    | Char(c: char)
    | U32(u: nat)
    | U64(u: nat)
    | I32(i: int)
    | I64(i: int)
    | Str(s: string)
  {
    /** In range; the least signed numbers are excluded, and a string ends at its terminator. */
    predicate Ok() {
      match this
      case U32(u) => u < 0x1_0000_0000
      case U64(u) => u < 0x1_0000_0000_0000_0000
      case I32(i) => -0x8000_0000 < i < 0x8000_0000
      case I64(i) => -0x8000_0000_0000_0000 < i < 0x8000_0000_0000_0000
      case Str(s) => '\0' !in s
      case Char(_) => true
    }
  }

  datatype Rendering = Printed(text: string) | WrongArgument

  function Then(s: string, r: Rendering): Rendering {
    match r
    case Printed(text) => Printed(s + text)
    case WrongArgument => WrongArgument
  }

  function Name(k: Kind): string {
    match k
    case C => "c"
    case D => "d"
    case LD => "ld"
    case SD => "sd"
    case SLD => "sld"
    case X => "x"
    case LX => "lx"
    case B => "b"
    case LB => "lb"
    case S => "s"
  }

  /** What a conversion prints. */
  function Show(k: Kind, a: Arg): Rendering {
    match (k, a)
    case (C, Char(c)) => Printed([c])
    case (D, U32(u)) => Printed(Numeral(u, 10))
    case (LD, U64(u)) => Printed(Numeral(u, 10))
    case (SD, I32(i)) => Printed(SignedNumeral(i, 10))
    case (SLD, I64(i)) => Printed(SignedNumeral(i, 10))
    case (X, U32(u)) => Printed("0x" + Numeral(u, 16))
    case (LX, U64(u)) => Printed("0x" + Numeral(u, 16))
    case (B, U32(u)) => Printed(Numeral(u, 2))
    case (LB, U64(u)) => Printed(Numeral(u, 2))
    case (S, Str(s)) => Printed(s)
    case _ => WrongArgument
  }

  /** Character `i` of a C string; the terminator stands for everything behind the end. */
  function At(f: string, i: nat): char {
    if i < |f| then f[i] else '\0'
  }

  datatype Match = Known(kind: Kind) | Unknown

  /** The longest conversion whose name `f` starts with. */
  ghost function Longest(f: string): Match {
    if At(f, 0) == 'c' then Known(C)
    else if At(f, 0) == 'd' then Known(D)
    else if At(f, 0) == 'x' then Known(X)
    else if At(f, 0) == 'b' then Known(B)
    else if At(f, 0) == 'l' then
      (if At(f, 1) == 'd' then Known(LD)
       else if At(f, 1) == 'x' then Known(LX)
       else if At(f, 1) == 'b' then Known(LB)
       else Unknown)
    else if At(f, 0) == 's' then
      (if At(f, 1) == 'd' then Known(SD) else if At(f, 1) == 'l' && At(f, 2) == 'd' then Known(SLD) else Known(S))
    else Unknown
  }

  /** What a format prints, character by character; an unknown conversion prints all that is left. */
  ghost function Render(f: string, args: seq<Arg>): Rendering
    decreases |f|
  {
    if f == "" then Printed("")
    else if f[0] != '%' then Then([f[0]], Render(f[1..], args))
    else if At(f, 1) == '%' then Then("%", Render(f[2..], args))
    else
      var m := Longest(f[1..]);
      if m == Unknown then Printed(f)
      else if args == [] then WrongArgument
      else
        LongestIsPrefix(f[1..]);
        match Show(m.kind, args[0])
        case WrongArgument => WrongArgument
        case Printed(s) => Then(s, Render(f[1 + |Name(m.kind)|..], args[1..]))
  }

  lemma LongestIsPrefix(f: string)
    ensures Longest(f).Known? ==> Name(Longest(f).kind) <= f
  {
  }

  /** No other conversion name that `f` starts with is longer. */
  lemma LongestIsLongest(f: string, k: Kind)
    requires Name(k) <= f
    ensures Longest(f).Known? && |Name(k)| <= |Name(Longest(f).kind)|
  {
    assert f[0] == Name(k)[0];
    if |Name(k)| >= 2 { assert f[1] == Name(k)[1]; }
    if |Name(k)| >= 3 { assert f[2] == Name(k)[2]; }
  }

  // ---------------------------------------------------------------- what the text says

  /** The names of the conversions. */
  predicate IsName(n: string) {
    n in {"c", "d", "ld", "sd", "sld", "x", "lx", "b", "lb", "s"}
  }

  ghost predicate WritesHex(text: string, v: nat) {
    |text| >= 2 && text[..2] == "0x" && Writes(text[2..], v, 16)
  }

  /** `text` is what conversion `n` of argument `a` has to look like. */
  ghost predicate Stands(n: string, a: Arg, text: string) {
    match a
    case Char(c) => n == "c" && text == [c]
    case Str(s) => n == "s" && text == s
    case U32(u) =>
      (n == "d" && Writes(text, u, 10)) || (n == "b" && Writes(text, u, 2)) || (n == "x" && WritesHex(text, u))
    case U64(u) =>
      (n == "ld" && Writes(text, u, 10)) || (n == "lb" && Writes(text, u, 2)) || (n == "lx" && WritesHex(text, u))
    case I32(i) => n == "sd" && WritesSigned(text, i, 10)
    case I64(i) => n == "sld" && WritesSigned(text, i, 10)
  }

  /** No longer name is at the start of `f`. */
  ghost predicate LongestName(f: string, n: string) {
    IsName(n) && n <= f && forall m :: IsName(m) && m <= f ==> |m| <= |n|
  }

  ghost predicate NoName(f: string) {
    forall m :: IsName(m) ==> !(m <= f)
  }

  /**
   `out` is what format `f` asks for: its text, with "%%" for a percent sign, and an argument for each percent sign
   with a name behind it.  From a percent sign without one, all that is left stands as it is.
   */
  ghost predicate Prints(f: string, args: seq<Arg>, out: string)
    decreases |f|
  {
    if f == "" then out == ""
    else if f[0] != '%' then out != "" && out[0] == f[0] && Prints(f[1..], args, out[1..])
    else if |f| > 1 && f[1] == '%' then out != "" && out[0] == '%' && Prints(f[2..], args, out[1..])
    else if NoName(f[1..]) then out == f
    else
      args != [] && exists n, k: nat :: k <= |out| && Stands(n, args[0], out[..k])
                                        && LongestName(f[1..], n) && Prints(f[1 + |n|..], args[1..], out[k..])
  }

  /** The first argument, as conversion `n`, makes up the first `k` characters. */
  ghost predicate PrintsArgument(f: string, args: seq<Arg>, out: string, n: string, k: nat)
    requires f != ""
  {
    && LongestName(f[1..], n) && args != [] && k <= |out|
    && Stands(n, args[0], out[..k]) && Prints(f[1 + |n|..], args[1..], out[k..])
  }

  lemma Hex(u: nat, text: string)
    ensures WritesHex(text, u) <==> text == "0x" + Numeral(u, 16)
  {
    if |text| >= 2 {
      WritesIff(text[2..], u, 16);
      assert text[..2] == "0x" ==> text == "0x" + text[2..];
    }
  }

  lemma ShowIff(k: Kind, a: Arg, text: string)
    ensures Show(k, a) == Printed(text) <==> Stands(Name(k), a, text)
  {
    match a
    case Char(_) =>
    case Str(_) =>
    case U32(u) =>
      WritesIff(text, u, 10);
      WritesIff(text, u, 2);
      Hex(u, text);
    case U64(u) =>
      WritesIff(text, u, 10);
      WritesIff(text, u, 2);
      Hex(u, text);
    case I32(i) => WritesSignedIff(text, i, 10);
    case I64(i) => WritesSignedIff(text, i, 10);
  }

  lemma NameOf(n: string) returns (k: Kind)
    requires IsName(n)
    ensures Name(k) == n
  {
    k := if n == "c" then C else if n == "d" then D else if n == "ld" then LD else if n == "sd" then SD
         else if n == "sld" then SLD else if n == "x" then X else if n == "lx" then LX else if n == "b" then B
         else if n == "lb" then LB else S;
  }

  lemma LongestNameIs(f: string)
    ensures Longest(f) == Unknown <==> NoName(f)
    ensures Longest(f).Known? ==> forall n :: LongestName(f, n) <==> n == Name(Longest(f).kind)
  {
    LongestIsPrefix(f);
    forall n | IsName(n) && n <= f ensures Longest(f).Known? && |n| <= |Name(Longest(f).kind)| {
      var k := NameOf(n);
      LongestIsLongest(f, k);
    }
    if Longest(f).Known? {
      var m := Name(Longest(f).kind);
      assert IsName(m) && m <= f;
      forall n ensures LongestName(f, n) <==> n == m {
        if LongestName(f, n) {
          assert |n| == |m| && n == f[..|n|] && m == f[..|m|];
        }
      }
    }
  }

  /** The rendering is that text, and no other text is. */
  lemma {:induction false} RenderIff(f: string, args: seq<Arg>, out: string)
    ensures Render(f, args) == Printed(out) <==> Prints(f, args, out)
    decreases |f|, 2
  {
    if f == "" {
    } else if f[0] != '%' {
      AfterFirst([f[0]], Render(f[1..], args), out);
      if out != "" {
        RenderIff(f[1..], args, out[1..]);
      }
    } else if |f| > 1 && f[1] == '%' {
      AfterFirst("%", Render(f[2..], args), out);
      if out != "" {
        RenderIff(f[2..], args, out[1..]);
      }
    } else {
      LongestNameIs(f[1..]);
      if Longest(f[1..]).Known? {
        assert !NoName(f[1..]);
        ConversionPrints(f, args, out);
        if args != [] {
          ArgumentIff(f, args, out, Longest(f[1..]).kind);
        }
      } else {
        assert NoName(f[1..]) && Render(f, args) == Printed(f);
      }
    }
  }

  /** What Prints says of a conversion in front. */
  lemma ConversionPrints(f: string, args: seq<Arg>, out: string)
    requires f != "" && f[0] == '%' && At(f, 1) != '%' && !NoName(f[1..])
    ensures Prints(f, args, out) <==> exists n, k: nat :: PrintsArgument(f, args, out, n, k)
    ensures args == [] ==> !Prints(f, args, out)
  {
    if Prints(f, args, out) {
      var n, k: nat :| k <= |out| && Stands(n, args[0], out[..k])
                       && LongestName(f[1..], n) && Prints(f[1 + |n|..], args[1..], out[k..]);
      assert PrintsArgument(f, args, out, n, k);
    }
    if n, k: nat :| PrintsArgument(f, args, out, n, k) {
      assert Stands(n, args[0], out[..k]) && LongestName(f[1..], n);
    }
  }

  lemma AfterFirst(s: string, r: Rendering, out: string)
    requires |s| == 1
    ensures Then(s, r) == Printed(out) <==> out != "" && out[0] == s[0] && r == Printed(out[1..])
  {
    if r.Printed? {
      assert (s + r.text)[1..] == r.text;
    }
    if out != "" {
      assert out == [out[0]] + out[1..];
    }
  }

  /** What Render does with a conversion in front. */
  lemma RendersArgument(f: string, args: seq<Arg>, c: Kind)
    requires f != "" && f[0] == '%' && At(f, 1) != '%' && args != [] && Longest(f[1..]) == Known(c)
    ensures 1 + |Name(c)| <= |f|
    ensures Render(f, args) == match Show(c, args[0])
                               case WrongArgument => WrongArgument
                               case Printed(s) => Then(s, Render(f[1 + |Name(c)|..], args[1..]))
  {
    LongestIsPrefix(f[1..]);
  }

  lemma AfterText(s: string, r: Rendering, out: string)
    ensures Then(s, r) == Printed(out) <==> |s| <= |out| && s == out[..|s|] && r == Printed(out[|s|..])
  {
    if r.Printed? {
      assert (s + r.text)[..|s|] == s && (s + r.text)[|s|..] == r.text;
    }
    if |s| <= |out| {
      assert out == out[..|s|] + out[|s|..];
    }
  }

  lemma ArgumentIff(f: string, args: seq<Arg>, out: string, c: Kind)
    requires f != "" && f[0] == '%' && At(f, 1) != '%' && args != [] && Longest(f[1..]) == Known(c)
    ensures Render(f, args) == Printed(out) <==> exists n, k: nat :: PrintsArgument(f, args, out, n, k)
    decreases |f|, 1
  {
    RendersArgument(f, args, c);
    LongestNameIs(f[1..]);
    if Render(f, args) == Printed(out) {
      var text := Show(c, args[0]).text;
      AfterText(text, Render(f[1 + |Name(c)|..], args[1..]), out);
      IsArgument(f, args, out, c, |text|);
    }
    if n, k: nat :| PrintsArgument(f, args, out, n, k) {
      IsArgument(f, args, out, c, k);
      AfterText(out[..k], Render(f[1 + |Name(c)|..], args[1..]), out);
    }
  }

  lemma IsArgument(f: string, args: seq<Arg>, out: string, c: Kind, k: nat)
    requires f != "" && args != [] && k <= |out| && LongestName(f[1..], Name(c)) && 1 + |Name(c)| <= |f|
    ensures PrintsArgument(f, args, out, Name(c), k)
            <==> Show(c, args[0]) == Printed(out[..k])
                 && Render(f[1 + |Name(c)|..], args[1..]) == Printed(out[k..])
    decreases |f|, 0
  {
    ShowIff(c, args[0], out[..k]);
    RenderIff(f[1 + |Name(c)|..], args[1..], out[k..]);
  }

  /** Behind a percent sign that begins no conversion everything is printed as it stands, the sign included. */
  lemma UnknownPrintsRest(s: string, rest: string, args: seq<Arg>)
    requires NoName(rest) && (rest == "" || rest[0] != '%')
    ensures Render(Escape(s) + ("%" + rest), args) == Printed(s + ("%" + rest))
  {
    var f := "%" + rest;
    assert f[1..] == rest;
    EscapedPrintsItself(s, f, args);
    LongestNameIs(rest);
  }

  // ---------------------------------------------------------------- what a caller can rely on

  function EscapedChar(c: char): string {
    if c == '%' then "%%" else [c]
  }

  /** Text with every percent sign doubled. */
  function Escape(s: string): string {
    if s == "" then "" else EscapedChar(s[0]) + Escape(s[1..])
  }

  lemma ThenThen(s: string, t: string, r: Rendering)
    ensures Then(s, Then(t, r)) == Then(s + t, r)
  {
    if r.Printed? {
      assert s + (t + r.text) == s + t + r.text;
    }
  }

  /** Escaped text prints as it was, whatever follows it. */
  lemma {:induction false} EscapedPrintsItself(s: string, f: string, args: seq<Arg>)
    ensures Render(Escape(s) + f, args) == Then(s, Render(f, args))
  {
    if s == "" {
      assert Escape(s) + f == f;
      assert Render(f, args).Printed? ==> "" + Render(f, args).text == Render(f, args).text;
    } else {
      EscapedPrintsItself(s[1..], f, args);
      assert Escape(s) + f == EscapedChar(s[0]) + (Escape(s[1..]) + f);
      ThenThen([s[0]], s[1..], Render(f, args));
      assert [s[0]] + s[1..] == s;
    }
  }

  /** What a caller means: pieces of text and conversions with their arguments. */
  datatype Piece = Text(s: string) | Conv(k: Kind, a: Arg)

  function Format(ps: seq<Piece>): string {
    if ps == [] then ""
    else (match ps[0] case Text(s) => Escape(s) case Conv(k, _) => "%" + Name(k)) + Format(ps[1..])
  }

  function Args(ps: seq<Piece>): seq<Arg> {
    if ps == [] then [] else (match ps[0] case Text(_) => [] case Conv(_, a) => [a]) + Args(ps[1..])
  }

  predicate WellTyped(ps: seq<Piece>) {
    forall p <- ps :: p.Conv? ==> Show(p.k, p.a).Printed?
  }

  function Output(ps: seq<Piece>): string
    requires WellTyped(ps)
  {
    if ps == [] then "" else (match ps[0] case Text(s) => s case Conv(k, a) => Show(k, a).text) + Output(ps[1..])
  }

  /** No %s is directly followed by text that makes it read as %sd or %sld. */
  predicate Clear(ps: seq<Piece>) {
    ps == [] || (Separate(ps[0], Format(ps[1..])) && Clear(ps[1..]))
  }

  predicate Separate(p: Piece, rest: string) {
    p.Conv? && p.k == S ==> At(rest, 0) != 'd' && !(At(rest, 0) == 'l' && At(rest, 1) == 'd')
  }

  lemma LongestOfName(k: Kind, a: Arg, rest: string)
    ensures Separate(Conv(k, a), rest) ==> Longest(Name(k) + rest) == Known(k)
    ensures !Separate(Conv(k, a), rest) ==> Longest(Name(k) + rest) in {Known(SD), Known(SLD)}
  {
    var f := Name(k) + rest;
    assert At(f, |Name(k)|) == At(rest, 0) && At(f, |Name(k)| + 1) == At(rest, 1);
  }

  /** A conversion piece in front. */
  lemma ConvRenders(k: Kind, a: Arg, rest: string, args: seq<Arg>)
    requires Show(k, a).Printed?
    ensures Render("%" + Name(k) + rest, [a] + args)
            == if Separate(Conv(k, a), rest) then Then(Show(k, a).text, Render(rest, args)) else WrongArgument
  {
    var f := "%" + Name(k) + rest;
    assert f[1..] == Name(k) + rest;
    LongestOfName(k, a, rest);
    assert f[1 + |Name(k)|..] == rest && ([a] + args)[1..] == args;
    assert At(f, 1) == Name(k)[0] != '%';
  }

  /** A format made of well-typed pieces prints what is meant exactly when it is clear. */
  lemma {:induction false} PrintsAsMeantIff(ps: seq<Piece>)
    requires WellTyped(ps)
    ensures Render(Format(ps), Args(ps)) == Printed(Output(ps)) <==> Clear(ps)
    ensures !Clear(ps) ==> Render(Format(ps), Args(ps)) == WrongArgument
  {
    if ps != [] {
      var rest := ps[1..];
      PrintsAsMeantIff(rest);
      match ps[0] {
        case Text(s) =>
          EscapedPrintsItself(s, Format(rest), Args(rest));
          assert Args(ps) == Args(rest);
        case Conv(k, a) =>
          ConvRenders(k, a, Format(rest), Args(rest));
      }
    }
  }

  /** "%sd" asks for a number, so a string printed with a "d" behind it comes out wrong. */
  lemma StringThenD(s: string)
    ensures var ps := [Conv(S, Str(s)), Text("d")];
            && Format(ps) == "%sd" && WellTyped(ps) && Output(ps) == s + "d"
            && Render(Format(ps), Args(ps)) == WrongArgument
  {
    var ps := [Conv(S, Str(s)), Text("d")];
    assert ps[1..] == [Text("d")] && [Text("d")][1..] == [];
    assert Escape("d") == "d";
    assert Format([Text("d")]) == "d" && Output([Text("d")]) == "d";
    assert !Separate(ps[0], Format(ps[1..]));
    PrintsAsMeantIff(ps);
  }

  // ---------------------------------------------------------------- the code

  lemma {:induction false} PlainRun(f: string, n: nat, args: seq<Arg>)
    requires n <= |f| && forall i :: 0 <= i < n ==> f[i] != '%'
    ensures Render(f, args) == Then(f[..n], Render(f[n..], args))
  {
    if n == 0 {
      assert f[0..] == f;
      assert Render(f, args).Printed? ==> "" + Render(f, args).text == Render(f, args).text;
    } else {
      PlainRun(f[1..], n - 1, args);
      assert f[1..][n - 1..] == f[n..];
      assert [f[0]] + f[1..][..n - 1] == f[..n];
      ThenThen([f[0]], f[1..][..n - 1], Render(f[n..], args));
    }
  }

  lemma RunRenders(format: string, q: nat, next: nat, args: seq<Arg>)
    requires q <= next <= |format| && forall j :: q <= j < next ==> format[j] != '%'
    ensures Render(format[q..], args) == Then(format[q..next], Render(format[next..], args))
  {
    var tail, n := format[q..], next - q;
    assert forall k :: 0 <= k < n ==> tail[k] == format[q + k];
    assert tail[..n] == format[q..next] && tail[n..] == format[next..];
    PlainRun(tail, n, args);
  }

  /**
   A run of text: one character, which may be the second of two percent signs, and all up to the next percent sign.
   */
  method TextRun(format: string, begin: nat, ghost args: seq<Arg>) returns (text: string, next: nat)
    requires begin < |format| && (format[begin] != '%' || At(format, begin + 1) == '%')
    ensures begin < next <= |format|
    ensures Render(format[begin..], args) == Then(text, Render(format[next..], args))
  {
    var i := begin;
    ghost var f := format[begin..];
    if format[i] == '%' {
      i := i + 1;
    }
    var amount: nat := 1;
    while i + amount < |format| && format[i + amount] != '%'
      invariant i + amount <= |format|
      invariant forall j :: i + 1 <= j < i + amount ==> format[j] != '%'
    {
      amount := amount + 1;
    }
    text, next := format[i..i + amount], i + amount;
    ghost var q := i + 1;
    RunRenders(format, q, next, args);
    assert text == [format[i]] + format[q..next];
    ThenThen([format[i]], format[q..next], Render(format[next..], args));
    assert f[q - begin..] == format[q..];
  }

  /** The conversion behind a percent sign, tried in the order of the code. */
  method Scan(format: string, at: nat) returns (m: Match)
    requires at <= |format|
    ensures m == Longest(format[at..])
  {
    ghost var f := format[at..];
    assert At(f, 0) == At(format, at) && At(f, 1) == At(format, at + 1) && At(f, 2) == At(format, at + 2);
    if At(format, at) == 'c' {
      return Known(C);
    } else if At(format, at) == 'd' {
      return Known(D);
    } else if At(format, at) == 'l' && At(format, at + 1) == 'd' {
      return Known(LD);
    } else if At(format, at) == 's' && At(format, at + 1) == 'd' {
      return Known(SD);
    } else if At(format, at) == 's' && At(format, at + 1) == 'l' && At(format, at + 2) == 'd' {
      return Known(SLD);
    } else if At(format, at) == 'x' {
      return Known(X);
    } else if At(format, at) == 'l' && At(format, at + 1) == 'x' {
      return Known(LX);
    } else if At(format, at) == 'b' {
      return Known(B);
    } else if At(format, at) == 'l' && At(format, at + 1) == 'b' {
      return Known(LB);
    } else if At(format, at) == 's' {
      return Known(S);
    } else {
      return Unknown;
    }
  }

  /** Prints one argument. */
  method Convert(k: Kind, a: Arg) returns (text: string)
    requires a.Ok() && Show(k, a).Printed?
    ensures Show(k, a) == Printed(text) && Stands(Name(k), a, text)
  {
    match k {
      case C => text := [a.c];
      case D => text := PrintUnsigned(a.u, 10);
      case LD => text := PrintUnsigned(a.u, 10);
      case SD => text := PrintSigned(a.i, 10, 32);
      case SLD => text := PrintSigned(a.i, 10, 64);
      case X =>
        PowersOf16();
        text := PrintHex(a.u, 8);
      case LX =>
        PowersOf16();
        text := PrintHex(a.u, 16);
      case B => text := PrintUnsigned(a.u, 2);
      case LB => text := PrintUnsigned(a.u, 2);
      case S => text := a.s;
    }
    ShowIff(k, a, text);
  }

  lemma PowersOf16()
    ensures Pow16(8) == 0x1_0000_0000 && Pow16(16) == 0x1_0000_0000_0000_0000
  {
    assert Pow16(4) == 0x1_0000;
    assert Pow16(8) == 0x1_0000_0000;
    assert Pow16(12) == 0x1_0000_0000_0000;
  }

  /** One percent sign with what follows it; `used` counts the arguments taken so far. */
  method Directive(format: string, begin: nat, args: seq<Arg>, used: nat) returns (text: string, next: nat, used': nat)
    requires begin < |format| && format[begin] == '%' && At(format, begin + 1) != '%' && used <= |args|
    requires (forall a <- args :: a.Ok()) && Render(format[begin..], args[used..]).Printed?
    ensures begin < next <= |format| && used <= used' <= |args|
    ensures Render(format[begin..], args[used..]) == Then(text, Render(format[next..], args[used'..]))
  {
    ghost var f, left := format[begin..], args[used..];
    assert f[0] == '%' && At(f, 1) == At(format, begin + 1) && f[1..] == format[begin + 1..];
    var m := Scan(format, begin + 1);
    if m == Unknown {
      return format[begin..], |format|, used;
    }
    LongestIsPrefix(format[begin + 1..]);
    assert left[0] == args[used] && args[used] in args && left[1..] == args[used + 1..];
    next := begin + 1 + |Name(m.kind)|;
    assert f[1 + |Name(m.kind)|..] == format[next..];
    text := Convert(m.kind, args[used]);
    return text, next, used + 1;
  }

  /** Everything put on the console by one call whose arguments have the types the format asks for. */
  method Print(format: string, args: seq<Arg>) returns (out: string)
    requires '\0' !in format && (forall a <- args :: a.Ok()) && exists text :: Prints(format, args, text)
    ensures Prints(format, args, out) && Render(format, args) == Printed(out)
  {
    ghost var text0 :| Prints(format, args, text0);
    RenderIff(format, args, text0);
    out := "";
    var i: nat, used: nat := 0, 0;
    assert format[0..] == format && args[0..] == args;
    while i < |format|
      invariant i <= |format| && used <= |args|
      invariant Render(format[i..], args[used..]).Printed?
      invariant Render(format, args) == Then(out, Render(format[i..], args[used..]))
      decreases |format| - i
    {
      var text, next;
      if format[i] != '%' || At(format, i + 1) == '%' {
        text, next := TextRun(format, i, args[used..]);
        ThenThen(out, text, Render(format[next..], args[used..]));
        out, i := out + text, next;
        continue;
      }
      var used';
      text, next, used' := Directive(format, i, args, used);
      ThenThen(out, text, Render(format[next..], args[used'..]));
      out, i, used := out + text, next, used';
    }
    RenderIff(format, args, out);
  }
}
