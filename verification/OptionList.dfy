/** Comma-separated option lists of fuse-3/lib/fuse_opt.c: joining options with escapes, and taking a
    list apart in place. Strings are C strings: the text before the first NUL. */
module OptionList {

  const NUL: char := '\0'

  predicate NulFree(s: string) {
    NUL !in s
  }

  function Escape(opt: string, esc: bool): string {
    if opt == "" then ""
    else (if esc && (opt[0] == ',' || opt[0] == '\\') then ['\\', opt[0]] else [opt[0]]) + Escape(opt[1..], esc)
  }

  /** What `add_opt_common` makes of a list and one option more. */
  function Joined(opts: string, opt: string, esc: bool): string {
    (if opts == "" then "" else opts + ",") + Escape(opt, esc)
  }

  /** A list built by adding options one by one, escaped. */
  function JoinFrom(opts: string, more: seq<string>): string
    decreases |more|
  {
    if more == [] then opts else JoinFrom(Joined(opts, more[0], true), more[1..])
  }

  function JoinAll(opts: seq<string>): string {
    JoinFrom("", opts)
  }

  predicate IsOctal(s: string) {
    |s| >= 3 && '0' <= s[0] <= '3' && '0' <= s[1] <= '7' && '0' <= s[2] <= '7'
  }

  function OctalChar(s: string): char
    requires IsOctal(s)
  {
    ((s[0] as int - '0' as int) * 64 + (s[1] as int - '0' as int) * 8 + (s[2] as int - '0' as int)) as char
  }

  /** The options in the list `s`, the first of which has begun with `cur`. */
  function Options(s: string, cur: string): seq<string> {
    if s == "" then [cur]
    else if s[0] == ',' then [cur] + Options(s[1..], "")
    else if s[0] == '\\' && |s| > 1 then
      if IsOctal(s[1..]) then Options(s[4..], cur + [OctalChar(s[1..])])
      else Options(s[2..], cur + [s[1]])
    else Options(s[1..], cur + [s[0]])
  }

  /** A C string ends at its first NUL. */
  function Truncated(s: string): string {
    if s == "" || s[0] == NUL then "" else [s[0]] + Truncated(s[1..])
  }

  lemma {:induction false} NulFreeIsWhole(s: string)
    requires NulFree(s)
    ensures Truncated(s) == s
  {
    if s != "" {
      NulFreeIsWhole(s[1..]);
    }
  }

  /** What follows an option in a list. */
  function Tail(opts: seq<string>): string {
    if opts == [] then "" else "," + Escape(opts[0], true) + Tail(opts[1..])
  }

  /** An escaped option is read back whole. */
  lemma {:induction false} EscapeRoundTrip(opt: string, rest: string, cur: string)
    requires rest == "" || rest[0] == ','
    ensures Options(Escape(opt, true) + rest, cur) == Options(rest, cur + opt)
    decreases |opt|
  {
    if opt == "" {
      assert Escape(opt, true) + rest == rest && cur + opt == cur;
    } else {
      var s, more := Escape(opt, true) + rest, Escape(opt[1..], true) + rest;
      EscapeRoundTrip(opt[1..], rest, cur + [opt[0]]);
      assert cur + [opt[0]] + opt[1..] == cur + opt;
      if opt[0] == ',' || opt[0] == '\\' {
        assert s == ['\\', opt[0]] + more;
        assert s[2..] == more && s[1..][0] == opt[0];
      } else {
        assert s == [opt[0]] + more;
        assert s[1..] == more;
      }
    }
  }

  lemma {:induction false} TailRoundTrip(opt: string, opts: seq<string>)
    ensures Options(Escape(opt, true) + Tail(opts), "") == [opt] + opts
    decreases |opts|
  {
    var tail := Tail(opts);
    EscapeRoundTrip(opt, tail, "");
    assert "" + opt == opt;
    if opts != [] {
      var rest := Escape(opts[0], true) + Tail(opts[1..]);
      assert tail == "," + rest;
      OptionsAtComma(rest, opt);
      TailRoundTrip(opts[0], opts[1..]);
      assert [opts[0]] + opts[1..] == opts;
    }
  }

  lemma OptionsAtComma(rest: string, cur: string)
    ensures Options("," + rest, cur) == [cur] + Options(rest, "")
  {
    assert ("," + rest)[1..] == rest;
  }

  lemma {:induction false} JoinIsTail(s: string, opts: seq<string>)
    requires s != ""
    ensures JoinFrom(s, opts) == s + Tail(opts)
    decreases |opts|
  {
    if opts != [] {
      JoinIsTail(Joined(s, opts[0], true), opts[1..]);
      assert s + "," + Escape(opts[0], true) + Tail(opts[1..]) == s + Tail(opts);
    }
  }

  lemma EscapeNotEmpty(opt: string)
    requires opt != ""
    ensures Escape(opt, true) != ""
  {
  }

  /** Empty options before the first other one are lost. */
  lemma {:induction false} JoinLosesNone(opts: seq<string>)
    requires opts != []
    ensures |Options(JoinAll(opts), "")| <= |opts|
    decreases |opts|
  {
    if opts[0] != "" {
      FirstNotEmpty(opts);
    } else if |opts| > 1 {
      JoinLosesNone(opts[1..]);
      assert Joined("", "", true) == "";
    } else {
      assert JoinFrom("", opts) == "";
    }
  }

  lemma FirstNotEmpty(opts: seq<string>)
    requires opts != [] && opts[0] != ""
    ensures Options(JoinAll(opts), "") == opts
  {
    EscapeNotEmpty(opts[0]);
    assert Joined("", opts[0], true) == Escape(opts[0], true);
    JoinIsTail(Escape(opts[0], true), opts[1..]);
    TailRoundTrip(opts[0], opts[1..]);
    assert [opts[0]] + opts[1..] == opts;
  }

  /** Joining options and taking the list apart gives them back, in order, exactly when the first of
      several is not empty. */
  lemma JoinRoundTripIff(opts: seq<string>)
    requires opts != []
    ensures Options(JoinAll(opts), "") == opts <==> |opts| == 1 || opts[0] != ""
  {
    if opts[0] != "" {
      FirstNotEmpty(opts);
    } else if |opts| == 1 {
      assert Joined("", "", true) == "" && JoinFrom("", opts[1..]) == "";
      assert opts == [""];
    } else {
      JoinLosesNone(opts[1..]);
      assert Joined("", "", true) == "";
      assert JoinAll(opts) == JoinAll(opts[1..]);
    }
  }

  lemma {:induction false} EscapeIsNulFree(opt: string)
    requires NulFree(opt)
    ensures NulFree(Escape(opt, true))
  {
    if opt != "" {
      EscapeIsNulFree(opt[1..]);
      assert opt[0] in opt;
    }
  }

  lemma {:induction false} JoinIsNulFree(s: string, opts: seq<string>)
    requires NulFree(s) && forall i :: 0 <= i < |opts| ==> NulFree(opts[i])
    ensures NulFree(JoinFrom(s, opts))
    decreases |opts|
  {
    if opts != [] {
      EscapeIsNulFree(opts[0]);
      JoinIsNulFree(Joined(s, opts[0], true), opts[1..]);
    }
  }

  /** A joined list is a C string, and taken apart it hands over the options it was made of. */
  lemma JoinHandsBack(opts: seq<string>)
    requires opts != [] && (|opts| == 1 || opts[0] != "") && forall i :: 0 <= i < |opts| ==> NulFree(opts[i])
    ensures NulFree(JoinAll(opts)) && |Options(JoinAll(opts), "")| == |opts|
    ensures forall i :: 0 <= i < |opts| ==> Truncated(Options(JoinAll(opts), "")[i]) == opts[i]
  {
    JoinIsNulFree("", opts);
    JoinRoundTripIff(opts);
    forall i | 0 <= i < |opts| ensures Truncated(opts[i]) == opts[i] {
      NulFreeIsWhole(opts[i]);
    }
  }

  // ------------------------------------------------- every way to write a list

  /** A character may stand for itself, follow a backslash, or be written as three octal digits after one. */
  datatype Way = Plain | Quoted | Octal

  datatype Letter = Letter(c: char, way: Way)

  function Digit(n: int): char
    requires 0 <= n < 8
  {
    ('0' as int + n) as char
  }

  /** The text of one letter. */
  function Spelled(l: Letter): string {
    match l.way
    case Plain => [l.c]
    case Quoted => ['\\', l.c]
    case Octal =>
      var n := l.c as int;
      ['\\', Digit(n / 64 % 8), Digit(n / 8 % 8), Digit(n % 8)]
  }

  /** The text of an option that `rest` follows. */
  function TextOf(letters: seq<Letter>, rest: string): string {
    if letters == [] then rest else Spelled(letters[0]) + TextOf(letters[1..], rest)
  }

  function ListText(list: seq<seq<Letter>>): string {
    if list == [] then "" else TextOf(list[0], if |list| == 1 then "" else "," + ListText(list[1..]))
  }

  /** A letter says what it means in front of `rest`: a comma is not plain, nor is a backslash unless it ends the list;
      a quoted digit does not begin three octal ones; and three octal digits stand for one byte. */
  predicate Says(l: Letter, rest: string) {
    match l.way
    case Plain => l.c != ',' && (l.c == '\\' ==> rest == "")
    case Quoted => !(|rest| >= 2 && '0' <= l.c <= '3' && '0' <= rest[0] <= '7' && '0' <= rest[1] <= '7')
    case Octal => l.c as int < 256
  }

  predicate AllSay(letters: seq<Letter>, rest: string) {
    letters == [] || (Says(letters[0], TextOf(letters[1..], rest)) && AllSay(letters[1..], rest))
  }

  predicate ListSays(list: seq<seq<Letter>>) {
    list == [] || (AllSay(list[0], if |list| == 1 then "" else "," + ListText(list[1..])) && ListSays(list[1..]))
  }

  function Meaning(letters: seq<Letter>): string {
    seq(|letters|, i requires 0 <= i < |letters| => letters[i].c)
  }

  function Meanings(list: seq<seq<Letter>>): seq<string> {
    seq(|list|, i requires 0 <= i < |list| => Meaning(list[i]))
  }

  /** The three digits of a byte are read back as that byte. */
  lemma OctalRoundTrip(c: char, rest: string)
    requires c as int < 256
    ensures var s := Spelled(Letter(c, Octal)) + rest;
            IsOctal(s[1..]) && OctalChar(s[1..]) == c && s[4..] == rest
  {
  }

  /** One letter is read back as the character it stands for. */
  lemma LetterRoundTrip(l: Letter, rest: string, cur: string)
    requires Says(l, rest)
    ensures Options(Spelled(l) + rest, cur) == Options(rest, cur + [l.c])
  {
    var s := Spelled(l) + rest;
    match l.way
    case Plain =>
      assert s[0] == l.c && s[1..] == rest;
    case Quoted =>
      assert s[0] == '\\' && s[1] == l.c && s[2..] == rest;
      assert |rest| >= 2 ==> s[2] == rest[0] && s[3] == rest[1];
    case Octal =>
      OctalRoundTrip(l.c, rest);
  }

  lemma {:induction false} LettersRoundTrip(letters: seq<Letter>, rest: string, cur: string)
    requires AllSay(letters, rest)
    ensures Options(TextOf(letters, rest), cur) == Options(rest, cur + Meaning(letters))
    decreases |letters|
  {
    if letters == [] {
      assert cur + Meaning(letters) == cur;
    } else {
      LetterRoundTrip(letters[0], TextOf(letters[1..], rest), cur);
      LettersRoundTrip(letters[1..], rest, cur + [letters[0].c]);
      assert cur + [letters[0].c] + Meaning(letters[1..]) == cur + Meaning(letters);
    }
  }

  /** However a list is written, with any mix of plain, quoted and octal characters, it is read back as what it says. */
  lemma {:induction false} WrittenRoundTrip(list: seq<seq<Letter>>)
    requires list != [] && ListSays(list)
    ensures Options(ListText(list), "") == Meanings(list)
  {
    var rest := if |list| == 1 then "" else "," + ListText(list[1..]);
    LettersRoundTrip(list[0], rest, "");
    assert "" + Meaning(list[0]) == Meaning(list[0]);
    if |list| > 1 {
      WrittenRoundTrip(list[1..]);
      OptionsAtComma(ListText(list[1..]), Meaning(list[0]));
      assert Meanings(list) == [Meaning(list[0])] + Meanings(list[1..]);
    } else {
      assert Meanings(list) == [Meaning(list[0])];
    }
  }

  /** The first letter of a text that does not begin with a comma. */
  lemma FirstLetter(s: string) returns (l: Letter, rest: string)
    requires s != "" && s[0] != ','
    ensures Says(l, rest) && s == Spelled(l) + rest && |rest| < |s|
  {
    if s[0] == '\\' && |s| > 1 {
      if IsOctal(s[1..]) {
        l := OctalLetter(s);
        rest := s[4..];
      } else {
        l, rest := Letter(s[1], Quoted), s[2..];
        assert |rest| >= 2 ==> rest[0] == s[1..][1] && rest[1] == s[1..][2];
      }
    } else {
      l, rest := Letter(s[0], Plain), s[1..];
    }
  }

  lemma OctalLetter(s: string) returns (l: Letter)
    requires |s| >= 4 && s[0] == '\\' && IsOctal(s[1..])
    ensures l.way == Octal && Says(l, s[4..]) && s == Spelled(l) + s[4..]
  {
    var a, b, d := s[1] as int - '0' as int, s[2] as int - '0' as int, s[3] as int - '0' as int;
    assert s[1..][0] == s[1] && s[1..][1] == s[2] && s[1..][2] == s[3];
    var n := a * 64 + b * 8 + d;
    l := Letter(n as char, Octal);
    assert Digit(n / 64 % 8) == s[1] && Digit(n / 8 % 8) == s[2] && Digit(n % 8) == s[3];
    assert s == s[..4] + s[4..];
  }

  /** Every text is written in such a way, so that reading a list is fully described by what its letters say. */
  lemma {:induction false} EveryListIsWritten(s: string) returns (list: seq<seq<Letter>>)
    ensures list != [] && ListSays(list) && ListText(list) == s
    decreases |s|
  {
    if s == "" {
      list := [[]];
    } else if s[0] == ',' {
      var more := EveryListIsWritten(s[1..]);
      list := [[]] + more;
      assert list[1..] == more && s == "," + s[1..];
    } else {
      var l, rest := FirstLetter(s);
      var more := EveryListIsWritten(rest);
      list := [[l] + more[0]] + more[1..];
      assert list[1..] == more[1..] && list[0][1..] == more[0];
    }
  }

  lemma {:induction false} EscapeSnoc(opt: string, i: nat, esc: bool)
    requires i < |opt|
    ensures Escape(opt[..i + 1], esc) == Escape(opt[..i], esc) + Escape([opt[i]], esc)
  {
    EscapeConcat(opt[..i], [opt[i]], esc);
    assert opt[..i] + [opt[i]] == opt[..i + 1];
  }

  lemma {:induction false} EscapeConcat(a: string, b: string, esc: bool)
    ensures Escape(a + b, esc) == Escape(a, esc) + Escape(b, esc)
  {
    if a == "" {
      assert a + b == b;
    } else {
      EscapeConcat(a[1..], b, esc);
      assert (a + b)[1..] == a[1..] + b && (a + b)[0] == a[0];
      var first := if esc && (a[0] == ',' || a[0] == '\\') then ['\\', a[0]] else [a[0]];
      assert first + (Escape(a[1..], esc) + Escape(b, esc)) == first + Escape(a[1..], esc) + Escape(b, esc);
    }
  }

  /** `add_opt_common`: the list, of old or empty when there is none, is moved to a buffer with room for
      the option with every character escaped; every write is inside it. */
  method AddOptCommon(opts: string, opt: string, esc: bool) returns (buf: array<char>, n: nat)
    ensures fresh(buf) && buf.Length == |opts| + 1 + |opt| * 2 + 1
    ensures n < buf.Length && buf[..n] == Joined(opts, opt, esc) && buf[n] == NUL
  {
    buf, n := MoveList(opts, |opts| + 1 + |opt| * 2 + 1);
    ghost var head := buf[..n];
    for i := 0 to |opt|
      invariant n <= |head| + 2 * i && buf[..n] == head + Escape(opt[..i], esc)
    {
      EscapeSnoc(opt, i, esc);
      n := AddChar(buf, n, opt[i], esc);
    }
    assert opt[..|opt|] == opt;
    buf[n] := NUL;
  }

  /** The old list in the new buffer, with the comma that follows it. */
  method MoveList(opts: string, size: nat) returns (buf: array<char>, n: nat)
    requires |opts| < size
    ensures fresh(buf) && buf.Length == size && n <= |opts| + 1 && n <= size
    ensures buf[..n] == if opts == "" then "" else opts + ","
  {
    buf := new char[size](_ => NUL);
    forall i | 0 <= i < |opts| {
      buf[i] := opts[i];
    }
    n := |opts|;
    if n > 0 {
      buf[n] := ',';
      n := n + 1;
    }
  }

  method AddChar(buf: array<char>, n: nat, c: char, esc: bool) returns (n': nat)
    requires n + 2 <= buf.Length
    modifies buf
    ensures n <= n' <= n + 2 && buf[..n'] == old(buf[..n]) + Escape([c], esc)
  {
    n' := n;
    if esc && (c == ',' || c == '\\') {
      buf[n'] := '\\';
      n' := n' + 1;
    }
    buf[n'] := c;
    n' := n' + 1;
  }

  lemma {:induction false} TruncatedAtNul(s: string, rest: string)
    ensures Truncated(s + [NUL] + rest) == Truncated(s)
  {
    if s != "" {
      assert (s + [NUL] + rest)[1..] == s[1..] + [NUL] + rest;
      TruncatedAtNul(s[1..], rest);
    }
  }

  /** The C string at the start of a buffer. */
  method ReadString(opts: array<char>, ghost cur: string) returns (text: string)
    requires |cur| < opts.Length && opts[..|cur|] == cur && opts[|cur|] == NUL
    ensures text == Truncated(cur)
  {
    text := Truncated(opts[..]);
    assert opts[..] == cur + [NUL] + opts[|cur| + 1..];
    TruncatedAtNul(cur, opts[|cur| + 1..]);
  }

  /** `handed` are the first of `options`, as C strings, and all were accepted. */
  ghost predicate Accepted(handed: seq<string>, options: seq<string>, accept: string -> bool) {
    && |handed| <= |options|
    && (forall i :: 0 <= i < |handed| ==> handed[i] == Truncated(options[i]))
    && (forall i :: 0 <= i < |handed| ==> accept(handed[i]))
  }

  /** All options, or those up to the first that was refused, have been handed over, as C strings. */
  ghost predicate Processed(ok: bool, handed: seq<string>, options: seq<string>, accept: string -> bool) {
    && |handed| <= |options| && (forall i :: 0 <= i < |handed| ==> handed[i] == Truncated(options[i]))
    && (forall i :: 0 <= i < |handed| - 1 ==> accept(handed[i]))
    && if ok then |handed| == |options| && (handed == [] || accept(handed[|handed| - 1]))
       else handed != [] && !accept(handed[|handed| - 1])
  }

  /** `options` begins with what was read so far and goes on with the text left. */
  ghost predicate Reading(options: seq<string>, done: seq<string>, rest: string, cur: string) {
    options == done + Options(rest, cur)
  }

  lemma ReadSeparator(options: seq<string>, done: seq<string>, rest: string, cur: string)
    requires Reading(options, done, rest, cur) && (rest == "" || rest[0] == ',')
    ensures |done| < |options| && options[|done|] == cur
    ensures rest == "" ==> options == done + [cur]
    ensures rest != "" ==> Reading(options, done + [cur], rest[1..], "")
  {
    if rest != "" {
      assert options == done + ([cur] + Options(rest[1..], ""));
      assert options == done + [cur] + Options(rest[1..], "");
    }
  }

  /** One step of the reader inside an option: how much it reads, and the character it makes of it. */
  function NextChar(s: string): (int, char)
    requires s != ""
  {
    if s[0] == '\\' && |s| > 1 then
      if IsOctal(s[1..]) then (4, OctalChar(s[1..])) else (2, s[1])
    else (1, s[0])
  }

  lemma ReadChar(options: seq<string>, done: seq<string>, rest: string, cur: string)
    requires Reading(options, done, rest, cur) && rest != "" && rest[0] != ','
    ensures 1 <= NextChar(rest).0 <= |rest|
    ensures Reading(options, done, rest[NextChar(rest).0..], cur + [NextChar(rest).1])
  {
  }

  /** The buffer in the middle of the walk: the option so far at its start, the text left at its end,
      and the write cursor never past the read cursor. */
  ghost predicate Walking(buf: seq<char>, input: string, s: int, d: int, cur: string) {
    && |input| < |buf| && 0 <= d <= s <= |input|
    && buf[..d] == cur && buf[s..|input| + 1] == input[s..] + [NUL]
  }

  lemma WalkingAt(buf: seq<char>, input: string, s: int, d: int, cur: string, i: int)
    requires Walking(buf, input, s, d, cur) && s <= i <= |input|
    ensures i < |buf| && buf[i] == if i < |input| then input[i] else NUL
  {
    assert buf[i] == buf[s..|input| + 1][i - s];
  }

  /** The next character, read from the buffer. */
  lemma NextAt(buf: seq<char>, input: string, s: int, d: int, cur: string)
    requires Walking(buf, input, s, d, cur) && s < |input| && NulFree(input)
    ensures s + 1 < |buf| && (buf[s + 1] != NUL <==> s + 1 < |input|)
    ensures NextChar(input[s..]) ==
            if buf[s] != '\\' || buf[s + 1] == NUL then (1, buf[s])
            else if IsOctal(input[s + 1..]) then (4, OctalChar(input[s + 1..]))
            else (2, buf[s + 1])
  {
    WalkingAt(buf, input, s, d, cur, s);
    WalkingAt(buf, input, s, d, cur, s + 1);
    assert input[s..][1..] == input[s + 1..];
  }

  /** Writing at the write cursor and reading on. */
  lemma WalkOn(buf: seq<char>, input: string, s: int, d: int, cur: string, c: char, s': int)
    requires Walking(buf, input, s, d, cur) && s < s' <= |input|
    ensures Walking(buf[d := c], input, s', d + 1, cur + [c])
    ensures Walking(buf[d := c], input, s', 0, "")
  {
    var buf' := buf[d := c];
    assert buf'[..d + 1] == buf[..d] + [c];
    assert buf'[s'..|input| + 1] == buf[s..|input| + 1][s' - s..];
    assert (input[s..] + [NUL])[s' - s..] == input[s'..] + [NUL];
    assert buf'[..0] == "";
  }

  /** The option so far is ended with a NUL and read as a C string. */
  method Terminate(opts: array<char>, ghost input: string, ghost s: int, d: int,
                   ghost cur: string) returns (text: string)
    requires Walking(opts[..], input, s, d, cur)
    modifies opts
    ensures text == Truncated(cur) && (s < |input| ==> Walking(opts[..], input, s + 1, 0, ""))
  {
    if s < |input| {
      WalkOn(opts[..], input, s, d, cur, NUL, s + 1);
    }
    opts[d] := NUL;
    assert opts[..] == old(opts[..])[d := NUL];
    assert opts[..d] == cur;
    text := ReadString(opts, cur);
  }

  /** One character of an option moves down; the read cursor stops at the last one consumed. */
  method CopyChar(opts: array<char>, ghost input: string, s: int, d: int, ghost cur: string) returns (s': int, d': int)
    requires Walking(opts[..], input, s, d, cur) && s < |input| && NulFree(input)
    modifies opts
    ensures s' == s + NextChar(input[s..]).0 - 1 && d' == d + 1
    ensures Walking(opts[..], input, s' + 1, d', cur + [NextChar(input[s..]).1])
  {
    ghost var next := NextChar(input[s..]);
    WalkOn(opts[..], input, s, d, cur, next.1, s + next.0);
    NextAt(opts[..], input, s, d, cur);
    s', d' := s, d + 1;
    if opts[s'] == '\\' && opts[s' + 1] != NUL {
      s' := s' + 1;
      var octal := ReadOctal(opts, input, s, d, cur);
      if octal {
        opts[d] := OctalChar([opts[s'], opts[s' + 1], opts[s' + 2]]);
        s' := s' + 2;
      } else {
        opts[d] := opts[s'];
      }
    } else {
      opts[d] := opts[s'];
    }
    assert opts[..] == old(opts[..])[d := next.1];
  }

  /** The test for three octal digits after a backslash; it never looks past the NUL. */
  method ReadOctal(opts: array<char>, ghost input: string, s: int, ghost d: int,
                   ghost cur: string) returns (octal: bool)
    requires Walking(opts[..], input, s, d, cur) && s + 1 < |input| && NulFree(input)
    ensures octal <==> IsOctal(input[s + 1..])
    ensures octal ==> s + 3 < |input| < opts.Length && opts[s + 1..s + 4] == input[s + 1..s + 4]
  {
    WalkingAt(opts[..], input, s, d, cur, s + 1);
    octal := '0' <= opts[s + 1] <= '3';
    if octal {
      WalkingAt(opts[..], input, s, d, cur, s + 2);
      octal := '0' <= opts[s + 2] <= '7';
    }
    if octal {
      WalkingAt(opts[..], input, s, d, cur, s + 3);
      octal := '0' <= opts[s + 3] <= '7';
    }
  }

  /** The option that ends at `s` is handed over. */
  method EndOption(opts: array<char>, ghost input: string, ghost s: int, d: int, ghost cur: string,
                   ghost options: seq<string>, ghost done: seq<string>)
    returns (text: string)
    requires Walking(opts[..], input, s, d, cur) && Reading(options, done, input[s..], cur)
    requires s == |input| || input[s] == ','
    modifies opts
    ensures |done| < |options| && text == Truncated(options[|done|])
    ensures s == |input| ==> |options| == |done| + 1
    ensures s < |input| ==> Walking(opts[..], input, s + 1, 0, "")
    ensures s < |input| ==> Reading(options, done + [cur], input[s + 1..], "")
  {
    ReadSeparator(options, done, input[s..], cur);
    assert s < |input| ==> input[s..][1..] == input[s + 1..];
    text := Terminate(opts, input, s, d, cur);
  }

  /** One character more of the option that is being read. */
  method NextOfOption(opts: array<char>, ghost input: string, s: int, d: int, ghost cur: string,
                      ghost options: seq<string>, ghost done: seq<string>)
    returns (s': int, d': int, ghost cur': string)
    requires Walking(opts[..], input, s, d, cur) && Reading(options, done, input[s..], cur) && NulFree(input)
    requires s < |input| && input[s] != ','
    modifies opts
    ensures s <= s' && Walking(opts[..], input, s' + 1, d', cur') && Reading(options, done, input[s' + 1..], cur')
  {
    ReadChar(options, done, input[s..], cur);
    ghost var next := NextChar(input[s..]);
    assert input[s..][next.0..] == input[s + next.0..];
    s', d' := CopyChar(opts, input, s, d, cur);
    cur' := cur + [next.1];
  }

  /** `process_real_option_group`: `accept` stands for what the handler of an option answers. */
  method ProcessOptionGroup(opts: array<char>, ghost input: string, accept: string -> bool)
    returns (ok: bool, handed: seq<string>)
    requires NulFree(input) && |input| < opts.Length && opts[..|input|] == input && opts[|input|] == NUL
    modifies opts
    ensures Processed(ok, handed, Options(input, ""), accept)
  {
    ghost var options, done, cur := Options(input, ""), [], "";
    var s: int, d: int, end := 0, 0, false;
    handed := [];
    while !end
      invariant !end ==> Walking(opts[..], input, s, d, cur) && Reading(options, done, input[s..], cur)
      invariant |handed| == |done| && Accepted(handed, options, accept)
      invariant end ==> |handed| == |options|
      decreases !end, |input| - s
    {
      WalkingAt(opts[..], input, s, d, cur, s);
      if opts[s] == NUL {
        end := true;
      }
      if opts[s] == ',' || end {
        var text := EndOption(opts, input, s, d, cur, options, done);
        handed := handed + [text];
        if !accept(text) {
          return false, handed;
        }
        done, cur, d := done + [cur], "", 0;
      } else {
        s, d, cur := NextOfOption(opts, input, s, d, cur, options, done);
      }
      s := s + 1;
    }
    ok := true;
  }

  lemma {:induction false} JoinSnoc(s: string, opts: seq<string>, i: nat)
    requires i < |opts|
    ensures JoinFrom(s, opts[..i + 1]) == Joined(JoinFrom(s, opts[..i]), opts[i], true)
    decreases i
  {
    if i == 0 {
      assert opts[..1] == [opts[0]] && opts[..0] == [];
      assert JoinFrom(s, opts[..1]) == JoinFrom(Joined(s, opts[0], true), opts[..1][1..]);
    } else {
      var rest := opts[1..];
      JoinSnoc(Joined(s, opts[0], true), rest, i - 1);
      assert opts[..i + 1][1..] == rest[..i] && opts[..i][1..] == rest[..i - 1];
    }
  }

  /** Options joined one by one into a list and taken apart again reach the handler as they were, in order, up
      to the first that it refuses. */
  method JoinAndProcess(opts: seq<string>, accept: string -> bool) returns (ok: bool, handed: seq<string>)
    requires opts != [] && (|opts| == 1 || opts[0] != "") && forall i :: 0 <= i < |opts| ==> NulFree(opts[i])
    ensures |handed| <= |opts| && handed == opts[..|handed|]
    ensures ok ==> handed == opts && forall i :: 0 <= i < |opts| ==> accept(opts[i])
    ensures !ok ==>
              handed != [] && !accept(handed[|handed| - 1]) && forall i :: 0 <= i < |handed| - 1 ==> accept(handed[i])
  {
    var list := JoinInto(opts);
    JoinHandsBack(opts);
    ok, handed := ProcessOptionGroup(list, JoinAll(opts), accept);
    assert forall i :: 0 <= i < |handed| ==> handed[i] == opts[i];
  }

  /** `process_option_group` works on a copy of the list. */
  method CopyOf(text: string) returns (opts: array<char>)
    ensures fresh(opts) && opts.Length == |text| + 1 && opts[..|text|] == text && opts[|text|] == NUL
  {
    opts := new char[|text| + 1](_ => NUL);
    forall i | 0 <= i < |text| {
      opts[i] := text[i];
    }
  }

  /** However a list is written, what its letters say reaches the handler, in order and as C strings, up to the first
      option that it refuses. */
  method ProcessWritten(list: seq<seq<Letter>>, accept: string -> bool) returns (ok: bool, handed: seq<string>)
    requires list != [] && ListSays(list) && NulFree(ListText(list))
    ensures Processed(ok, handed, Meanings(list), accept)
  {
    var text := ListText(list);
    var opts := CopyOf(text);
    WrittenRoundTrip(list);
    ok, handed := ProcessOptionGroup(opts, text, accept);
  }

  method JoinInto(opts: seq<string>) returns (buf: array<char>)
    requires opts != []
    ensures fresh(buf) && |JoinAll(opts)| < buf.Length && buf[..|JoinAll(opts)|] == JoinAll(opts)
    ensures buf[|JoinAll(opts)|] == NUL
  {
    var n: nat;
    buf, n := AddOptCommon("", opts[0], true);
    JoinSnoc("", opts, 0);
    assert opts[..0] == [];
    for i := 1 to |opts|
      invariant fresh(buf) && n < buf.Length && buf[..n] == JoinAll(opts[..i]) && buf[n] == NUL
    {
      JoinSnoc("", opts, i);
      buf, n := AddOptCommon(buf[..n], opts[i], true);
    }
    assert opts[..|opts|] == opts;
  }
}
