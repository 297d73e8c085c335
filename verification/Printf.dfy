/** Formatted printing as an interpreter of a parsed format. */
module Printf {
  import opened Strtok
  import opened Conv

  /** What `va_arg` takes: an int, an unsigned int, or a string pointer that may be null. */
  datatype Arg = IntArg(i: int32) | UintArg(u: uint32) | StrArg(s: seq<char>) | NullStr

  datatype Piece = Literal(c: char) | Spec(c: char)

  /** The format ends in the middle of a specifier. */
  predicate Dangling(f: seq<char>) {
    if f == [] then false
    else if f[0] != '%' then Dangling(f[1..])
    else |f| == 1 || Dangling(f[2..])
  }

  function Parse(f: seq<char>): seq<Piece>
    requires !Dangling(f)
  {
    if f == [] then []
    else if f[0] != '%' then [Literal(f[0])] + Parse(f[1..])
    else [Spec(f[1])] + Parse(f[2..])
  }

  predicate IsNumber(c: char) {
    c == 'd' || c == 'u' || c == 'x'
  }

  /** The specifiers that take an argument. */
  predicate Takes(p: Piece) {
    p.Spec? && (p.c == 'c' || p.c == 's' || IsNumber(p.c))
  }

  predicate Suits(p: Piece, a: Arg) {
    p.Spec? ==>
      && (p.c == 'c' || p.c == 'd' || p.c == 'x' ==> a.IntArg?)
      && (p.c == 'u' ==> a.UintArg?)
      && (p.c == 's' ==> (a.StrArg? && '\0' !in a.s) || a.NullStr?)
  }

  /** The arguments are those the format asks for, in its order. */
  predicate Typed(ps: seq<Piece>, args: seq<Arg>) {
    if ps == [] then true
    else if Takes(ps[0]) then args != [] && Suits(ps[0], args[0]) && Typed(ps[1..], args[1..])
    else Typed(ps[1..], args)
  }

  function Unsigned(n: int32): uint32 {
    if n < 0 then n + TWO32 else n
  }

  /** The text of an argument under its specifier. */
  function Shown(p: Piece, a: Arg): seq<char>
    requires Takes(p) && Suits(p, a)
  {
    if p.c == 'c' then [(a.i % 256) as char]
    else if p.c == 's' then (if a.NullStr? then "(null)" else a.s)
    else if p.c == 'd' then Itoa(a.i)
    else if p.c == 'u' then Utoa(a.u)
    else Itoh(Unsigned(a.i))
  }

  /** Literals and %% stand for themselves; an unknown specifier for nothing. */
  function Plain(p: Piece): seq<char>
    requires !Takes(p)
  {
    if p.Literal? then [p.c] else if p.c == '%' then ['%'] else []
  }

  function Render(ps: seq<Piece>, args: seq<Arg>): seq<char>
    requires Typed(ps, args)
    decreases |ps|
  {
    if ps == [] then []
    else if Takes(ps[0]) then Shown(ps[0], args[0]) + Render(ps[1..], args[1..])
    else Plain(ps[0]) + Render(ps[1..], args)
  }

  // ----- What the rendered text is -------------------------------------------------------------------

  /** The arguments a format takes. */
  function Arity(ps: seq<Piece>): nat {
    if ps == [] then 0 else (if Takes(ps[0]) then 1 else 0) + Arity(ps[1..])
  }

  /** A format with exactly the arguments it takes. */
  predicate Complete(f: seq<char>, args: seq<Arg>) {
    !Dangling(f) && Typed(Parse(f), args) && |args| == Arity(Parse(f))
  }

  lemma {:induction false} DanglingJoin(f: seq<char>, g: seq<char>)
    requires !Dangling(f) && !Dangling(g)
    ensures !Dangling(f + g)
    decreases |f|
  {
    if f == [] {
      assert f + g == g;
    } else {
      assert (f + g)[Width(f)..] == f[Width(f)..] + g;
      DanglingJoin(f[Width(f)..], g);
    }
  }

  /** Formats one behind the other print one behind the other, each with its own arguments. */
  lemma {:induction false} RenderJoin(f: seq<char>, g: seq<char>, a: seq<Arg>, b: seq<Arg>)
    requires Complete(f, a) && Complete(g, b)
    ensures Complete(f + g, a + b)
    ensures Render(Parse(f + g), a + b) == Render(Parse(f), a) + Render(Parse(g), b)
    decreases |f|
  {
    if f == [] {
      assert f + g == g && a + b == b;
    } else {
      var p, w := First(f), Width(f);
      DanglingJoin(f, g);
      assert (f + g)[w..] == f[w..] + g && First(f + g) == p;
      var rest := if Takes(p) then a[1..] else a;
      assert (if Takes(p) then (a + b)[1..] else a + b) == rest + b;
      assert Parse(f)[0] == p && Parse(f)[1..] == Parse(f[w..]);
      RenderJoin(f[w..], g, rest, b);
      assert Parse(f + g)[0] == p && Parse(f + g)[1..] == Parse(f[w..] + g);
      Regroup(TextOf(p, a), Render(Parse(f[w..]), rest), Render(Parse(g), b));
    }
  }

  /** A format of one specifier, with its argument or none. */
  lemma OneSpec(c: char, args: seq<Arg>)
    requires if c in "csdux" then |args| == 1 && Suits(Spec(c), args[0]) else args == []
    ensures Complete(['%', c], args)
    ensures Render(Parse(['%', c]), args) == TextOf(Spec(c), args)
  {
    var f := ['%', c];
    assert f[2..] == [] && Parse([]) == [];
    assert Parse(f) == [Spec(c)] && Parse(f)[1..] == [];
    assert Takes(Spec(c)) <==> c in "csdux";
    assert Arity([Spec(c)]) == |args|;
  }

  /** A character other than the percent sign stands for itself, and so do two percent signs for one. */
  lemma LiteralText(c: char)
    requires c != '%'
    ensures Complete([c], []) && Render(Parse([c]), []) == [c]
    ensures Complete("%%", []) && Render(Parse("%%"), []) == "%"
  {
    assert [c][1..] == [] && Parse([]) == [];
    assert Parse([c]) == [Literal(c)] && Parse([c])[1..] == [];
    OneSpec('%', []);
  }

  /** An unknown specifier takes no argument and prints nothing. */
  lemma UnknownText(c: char)
    requires c !in "csdux%"
    ensures Complete(['%', c], []) && Render(Parse(['%', c]), []) == []
  {
    OneSpec(c, []);
  }

  /** %d prints a number that reads back, in decimal unless it is the minimum. */
  lemma DecimalText(n: int)
    requires -0x8000_0000 <= n < 0x8000_0000
    ensures Complete("%d", [IntArg(n)])
    ensures var t := Render(Parse("%d"), [IntArg(n)]);
            && Atoi(t) == n && t != [] && (t[0] == '-' <==> n < 0)
            && var digits := if n < 0 then t[1..] else t;
               (forall i | 0 <= i < |digits| :: '0' <= digits[i] <= '9') <==> n != -0x8000_0000
  {
    OneSpec('d', [IntArg(n)]);
    AtoiOfItoa(n);
    ItoaIsDecimal(n);
    ItoaBody(n);
    assert Itoa(n)[1..] == if n < 0 then Body(Itoa(n)) else Itoa(n)[1..];
  }

  /** %u prints the digits of an unsigned number. */
  lemma UnsignedText(u: int)
    requires 0 <= u < 0x1_0000_0000
    ensures Complete("%u", [UintArg(u)])
    ensures var t := Render(Parse("%u"), [UintArg(u)]);
            Value(t) == u && forall i | 0 <= i < |t| :: '0' <= t[i] <= '9'
  {
    OneSpec('u', [UintArg(u)]);
    UtoaValue(u);
  }

  /** %x prints a number, negative ones as unsigned, in upper-case hexadecimal of even length. */
  lemma HexText(n: int)
    requires -0x8000_0000 <= n < 0x8000_0000
    ensures Complete("%x", [IntArg(n)])
    ensures var t := Render(Parse("%x"), [IntArg(n)]);
            && |t| % 2 == 0 && |t| > 0 && HexValue(t) == (if n < 0 then n + 0x1_0000_0000 else n)
            && forall i | 0 <= i < |t| :: '0' <= t[i] <= '9' || 'A' <= t[i] <= 'F'
  {
    OneSpec('x', [IntArg(n)]);
    ItohIsShortest(Unsigned(n), []);
  }

  /** %s prints the string, or "(null)" for a null pointer, and %c one character. */
  lemma StringText(s: seq<char>, n: int)
    requires '\0' !in s && -0x8000_0000 <= n < 0x8000_0000
    ensures Complete("%s", [StrArg(s)]) && Render(Parse("%s"), [StrArg(s)]) == s
    ensures Complete("%s", [NullStr]) && Render(Parse("%s"), [NullStr]) == "(null)"
    ensures Complete("%c", [IntArg(n)]) && Render(Parse("%c"), [IntArg(n)]) == [(n % 0x100) as char]
  {
    OneSpec('s', [StrArg(s)]);
    OneSpec('s', [NullStr]);
    OneSpec('c', [IntArg(n)]);
  }

  // ----- The interpreter ---------------------------------------------------------------------------

  /** `memcpy` of a text into the buffer. */
  method Put(buffer: array<char>, offset: nat, text: seq<char>)
    requires offset + |text| <= buffer.Length
    modifies buffer
    ensures buffer[..offset + |text|] == old(buffer[..offset]) + text
  {
    forall i | 0 <= i < |text| {
      buffer[offset + i] := text[i];
    }
  }

  const BUFSIZ := 512

  /** The cases %d, %u and %x: the number is converted in a local buffer and copied over. */
  method PutNumber(buffer: array<char>, offset: nat, p: Piece, a: Arg) returns (n: nat)
    requires p.Spec? && IsNumber(p.c) && Suits(p, a) && offset + |Shown(p, a)| <= buffer.Length
    modifies buffer
    ensures n == |Shown(p, a)| && buffer[..offset + n] == old(buffer[..offset]) + Shown(p, a)
  {
    var temp := new char[BUFSIZ];
    if p.c == 'd' {
      TextsAreShort(a.i, 0);
      ItoaInto(a.i, temp);
    } else if p.c == 'u' {
      TextsAreShort(0, a.u);
      UtoaInto(a.u, temp);
    } else {
      TextsAreShort(0, Unsigned(a.i));
      ItohInto(Unsigned(a.i), temp);
    }
    var text := Text(temp[..], 0);
    assert text == Shown(p, a);
    Put(buffer, offset, text);
    n := |text|;
  }

  method PutArgument(buffer: array<char>, offset: nat, p: Piece, a: Arg) returns (n: nat)
    requires Takes(p) && Suits(p, a) && offset + |Shown(p, a)| <= buffer.Length
    modifies buffer
    ensures n == |Shown(p, a)| && buffer[..offset + n] == old(buffer[..offset]) + Shown(p, a)
  {
    if p.c == 'c' {
      var text := [(a.i % 256) as char];
      Put(buffer, offset, text);
      n := 1;
    } else if p.c == 's' {
      var text := if a.NullStr? then "(null)" else a.s;
      Put(buffer, offset, text);
      n := |text|;
    } else {
      n := PutNumber(buffer, offset, p, a);
    }
  }

  /** What is already in the buffer and what is still to come make up the whole. */
  ghost predicate Pending(done: seq<char>, f: seq<char>, args: seq<Arg>, whole: seq<char>) {
    !Dangling(f) && Typed(Parse(f), args) && done + Render(Parse(f), args) == whole
  }

  /** What piece p prints with these arguments. */
  function TextOf(p: Piece, args: seq<Arg>): seq<char>
    requires Takes(p) ==> args != [] && Suits(p, args[0])
  {
    if Takes(p) then Shown(p, args[0]) else Plain(p)
  }

  function First(f: seq<char>): Piece
    requires f != [] && !Dangling(f)
  {
    if f[0] == '%' then Spec(f[1]) else Literal(f[0])
  }

  function Width(f: seq<char>): (n: nat)
    requires f != [] && !Dangling(f)
    ensures 1 <= n <= |f|
  {
    if f[0] == '%' then 2 else 1
  }

  lemma NextPiece(done: seq<char>, f: seq<char>, args: seq<Arg>, whole: seq<char>)
    requires Pending(done, f, args, whole) && f != []
    ensures var p := First(f);
            && (Takes(p) ==> args != [] && Suits(p, args[0]))
            && Pending(done + TextOf(p, args), f[Width(f)..], if Takes(p) then args[1..] else args, whole)
            && |done + TextOf(p, args)| <= |whole|
  {
    var ps, p := Parse(f), First(f);
    assert ps[0] == p && ps[1..] == Parse(f[Width(f)..]);
    Regroup(done, TextOf(p, args), Render(ps[1..], if Takes(p) then args[1..] else args));
  }

  lemma Regroup(a: seq<char>, b: seq<char>, c: seq<char>)
    ensures a + (b + c) == a + b + c
  {
  }

  /** The body of the loop for one piece: a character as it is, or the `switch` after a percent sign. */
  method PutPiece(buffer: array<char>, offset: nat, p: Piece, args: seq<Arg>) returns (n: nat, rest: seq<Arg>)
    requires Takes(p) ==> args != [] && Suits(p, args[0])
    requires offset + |TextOf(p, args)| <= buffer.Length
    modifies buffer
    ensures rest == if Takes(p) then args[1..] else args
    ensures n == |TextOf(p, args)| && buffer[..offset + n] == old(buffer[..offset]) + TextOf(p, args)
  {
    n, rest := 0, args;
    if Takes(p) {
      n := PutArgument(buffer, offset, p, args[0]);
      rest := args[1..];
    } else if p.Literal? || p.c == '%' {
      Put(buffer, offset, [p.c]);
      n := 1;
    } else {
      assert old(buffer[..offset]) + [] == buffer[..offset];
    }
  }

  /** One turn of the loop. */
  method Emit(buffer: array<char>, offset: nat, f: seq<char>, args: seq<Arg>, ghost whole: seq<char>)
      returns (next: nat, f': seq<char>, rest: seq<Arg>)
    requires f != [] && offset <= |whole| < buffer.Length && Pending(buffer[..offset], f, args, whole)
    modifies buffer
    ensures next <= |whole| && Pending(buffer[..next], f', rest, whole) && |f'| < |f|
  {
    NextPiece(buffer[..offset], f, args, whole);
    var n, width := 0, Width(f);
    n, rest := PutPiece(buffer, offset, First(f), args);
    next, f' := offset + n, f[width..];
  }

  lemma PendingEnds(done: seq<char>, f: seq<char>, args: seq<Arg>, whole: seq<char>)
    requires !Dangling(f) && Typed(Parse(f), args)
    ensures Pending([], f, args, Render(Parse(f), args))
    ensures f == [] && Pending(done, f, args, whole) ==> done == whole
  {
  }

  /** The buffer receives exactly the rendered text and a terminator, and the result is its length. */
  method Vsprintf(buffer: array<char>, format: seq<char>, args: seq<Arg>) returns (offset: nat)
    requires !Dangling(format) && Typed(Parse(format), args)
    requires |Render(Parse(format), args)| < buffer.Length
    modifies buffer
    ensures var text := Render(Parse(format), args);
            offset == |text| && buffer[..offset] == text && buffer[offset] == '\0'
  {
    ghost var whole := Render(Parse(format), args);
    PendingEnds([], format, args, whole);
    var f, rest := format, args;
    offset := 0;
    assert buffer[..0] == [];
    while f != []
      invariant 0 <= offset <= |whole| && Pending(buffer[..offset], f, rest, whole)
      decreases |f|
    {
      offset, f, rest := Emit(buffer, offset, f, rest, whole);
    }
    PendingEnds(buffer[..offset], f, rest, whole);
    buffer[offset] := '\0';
  }
}
