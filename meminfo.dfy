/** The memory reader of main.go: `meminfoHelper`, which turns the value part
    of one /proc/meminfo line into a byte count, and `getMemStats`, which reads
    the file line by line and routes six keys to the fields of a record. */
module MemInfo {
  import opened Base
  import opened Strings
  import opened Strconv
  import opened Sequences

  /** sflow.HostMemoryCounters as filled in by getMemStats; all values in bytes. */
  datatype MemoryCounters = MemoryCounters(
    total: U64, free: U64, buffers: U64, cached: U64, swapTotal: U64, swapFree: U64)

  /** The zero value `sflow.HostMemoryCounters{}`. */
  const Zero := MemoryCounters(0, 0, 0, 0, 0, 0)

  /** The six fields that getMemStats sets. */
  datatype Field = Total | Free | Buffers | Cached | SwapTotal | SwapFree

  function Get(m: MemoryCounters, f: Field): U64 {
    match f
    case Total => m.total
    case Free => m.free
    case Buffers => m.buffers
    case Cached => m.cached
    case SwapTotal => m.swapTotal
    case SwapFree => m.swapFree
  }

  /** `m` with field `f` set to `v`. */
  function With(m: MemoryCounters, f: Field, v: U64): (r: MemoryCounters)
    ensures Get(r, f) == v
    ensures forall g :: g != f ==> Get(r, g) == Get(m, g)
  {
    match f
    case Total => m.(total := v)
    case Free => m.(free := v)
    case Buffers => m.(buffers := v)
    case Cached => m.(cached := v)
    case SwapTotal => m.(swapTotal := v)
    case SwapFree => m.(swapFree := v)
  }

  /** A record is determined by its six fields. */
  lemma SameFields(a: MemoryCounters, b: MemoryCounters)
    requires forall f :: Get(a, f) == Get(b, f)
    ensures a == b
  {
    assert Get(a, Total) == Get(b, Total) && Get(a, Free) == Get(b, Free);
    assert Get(a, Buffers) == Get(b, Buffers) && Get(a, Cached) == Get(b, Cached);
    assert Get(a, SwapTotal) == Get(b, SwapTotal) && Get(a, SwapFree) == Get(b, SwapFree);
  }

  /** The /proc/meminfo key that getMemStats routes to each field. */
  function KeyOf(f: Field): string {
    match f
    case Total => "MemTotal"
    case Free => "MemFree"
    case Buffers => "Buffers"
    case Cached => "Cached"
    case SwapTotal => "SwapTotal"
    case SwapFree => "SwapFree"
  }

  /** The field a key is routed to; keys match exactly, so case or surrounding
      spaces make a different key. */
  function FieldNamed(key: string): (r: Option<Field>)
    ensures forall f :: r == Some(f) <==> KeyOf(f) == key
  {
    if key == "MemTotal" then Some(Total)
    else if key == "MemFree" then Some(Free)
    else if key == "Buffers" then Some(Buffers)
    else if key == "Cached" then Some(Cached)
    else if key == "SwapTotal" then Some(SwapTotal)
    else if key == "SwapFree" then Some(SwapFree)
    else None
  }

  /** Go's conversion uint64(n) of an int: two's complement, so negative values wrap. */
  function ToUint64(n: int): (r: U64)
    ensures 0 <= n < TWO_TO_THE_64 ==> r == n
    ensures MIN_INT64 <= n < 0 ==> r == TWO_TO_THE_64 + n
  {
    n % TWO_TO_THE_64
  }

  /** meminfoHelper: trim the value, take the text before its first space, and
      if Atoi accepts it return uint64(n) * 1024 in uint64 arithmetic; else 0. */
  function MeminfoHelper(s: string): (r: U64)
    ensures r % 1024 == 0
  {
    var parts := Split(TrimSpace(s), ' ');
    match Atoi(parts[0])
    case None => 0
    case Some(n) =>
      KibibytesWrap(ToUint64(n));
      (ToUint64(n) * 1024) % TWO_TO_THE_64
  }

  /** Multiplying by 1024 modulo 2^64 leaves a multiple of 1024. */
  lemma KibibytesWrap(x: int)
    ensures (x * 1024) % TWO_TO_THE_64 % 1024 == 0
  {
    var q := (x * 1024) / TWO_TO_THE_64;
    var y := (x * 1024) % TWO_TO_THE_64;
    assert x * 1024 == q * TWO_TO_THE_64 + y;
    assert y == (x - q * 0x40_0000_0000_0000) * 1024;
  }

  /** The text before the first space of the trimmed value is the token `tok`
      when the value is `tok`, padded in front with white space and followed by
      what ends it (see EndsToken). */
  lemma FirstToken(pad: string, tok: string, rest: string)
    requires AllSpace(pad)
    requires IsToken(tok) && EndsToken(tok, rest)
    ensures Split(TrimSpace(pad + tok + rest), ' ')[0] == tok
  {
    var trimmed := TrimSpace(pad + tok + rest);
    if AllSpace(rest) {
      TrimSpacePadded(pad, tok, rest);
      assert ' ' !in tok;
    } else {
      var tail := TrimRight(rest);
      var k := |tail|;
      assert AllSpace(rest[k..]);
      assert rest == tail + rest[k..];
      assert tail != [];
      var core := tok + tail;
      assert pad + tok + rest == pad + core + rest[k..];
      TrimSpacePadded(pad, core, rest[k..]);
      assert core[|tok|] == ' ';
      assert core[..|tok|] == tok;
      assert ' ' !in tok;
      IndexOfIs(core, ' ', |tok|);
    }
  }

  /** A candidate for the text before the first space of a trimmed value: it
      holds no space and does not begin with white space; it may hold or end
      with other white space such as a tab. */
  predicate IsToken(tok: string) {
    tok != [] && !IsSpace(tok[0]) && ' ' !in tok
  }

  /** What may follow the first token of a value: white space only, when the
      token does not end with white space (trimming would shorten it otherwise),
      or a space followed by text that is not all white space. */
  predicate EndsToken(tok: string, rest: string)
    requires tok != []
  {
    if AllSpace(rest) then !IsSpace(tok[|tok| - 1]) else rest[0] == ' '
  }

  /** Every value that is not blank is white space, a first token, and what
      ends that token, so MeminfoHelperReadsInteger and MeminfoHelperNotInteger
      between them cover every such value. */
  lemma ValueShape(s: string) returns (pad: string, tok: string, rest: string)
    requires !AllSpace(s)
    ensures s == pad + tok + rest
    ensures AllSpace(pad) && IsToken(tok) && EndsToken(tok, rest)
  {
    var core, post;
    pad, core, post := Untrim(s);
    tok, rest := CutCore(core, post);
    Associative(pad, tok, rest);
  }

  /** A value that is not blank is its trimmed core with white space around it. */
  lemma Untrim(s: string) returns (pad: string, core: string, post: string)
    requires !AllSpace(s)
    ensures s == pad + (core + post)
    ensures AllSpace(pad) && AllSpace(post)
    ensures core != [] && !IsSpace(core[0]) && !IsSpace(core[|core| - 1])
  {
    var l := TrimLeft(s);
    pad := s[..|s| - |l|];
    Rejoin(s, |s| - |l|);
    core := TrimRight(l);
    post := l[|core|..];
    Rejoin(l, |core|);
    AllSpaceJoin(pad, post);
  }

  /** A trimmed core and the white space after it: the core's text before its
      first space is a token, and the rest ends it. */
  lemma CutCore(core: string, post: string) returns (tok: string, rest: string)
    requires AllSpace(post)
    requires core != [] && !IsSpace(core[0]) && !IsSpace(core[|core| - 1])
    ensures core + post == tok + rest
    ensures IsToken(tok) && EndsToken(tok, rest)
  {
    match IndexOf(core, ' ')
    case None =>
      tok, rest := core, post;
    case Some(j) =>
      tok, rest := core[..j], core[j..] + post;
      Rejoin(core, j);
      Associative(tok, core[j..], post);
      assert rest[0] == core[j];
      assert rest[|core| - j - 1] == core[|core| - 1];
  }

  /** Any optional sign and digits as the value's first token: the count times
      1024 in uint64 arithmetic when Atoi accepts it, 0 when it is out of the
      int64 range. */
  lemma MeminfoHelperReadsInteger(pad: string, sign: string, ds: string, rest: string)
    requires AllSpace(pad)
    requires sign == "" || sign == "+" || sign == "-"
    requires IsDigits(ds)
    requires AllSpace(rest) || rest[0] == ' '
    ensures InInt64(SignedValue(sign, ds)) ==>
      MeminfoHelper(pad + sign + ds + rest) == (ToUint64(SignedValue(sign, ds)) * 1024) % TWO_TO_THE_64
    ensures !InInt64(SignedValue(sign, ds)) ==> MeminfoHelper(pad + sign + ds + rest) == 0
  {
    var tok := sign + ds;
    assert pad + sign + ds + rest == pad + tok + rest;
    assert tok[|tok| - 1] == ds[|ds| - 1];
    FirstToken(pad, tok, rest);
    AtoiSignedDigits(sign, ds);
  }

  /** A first token that is not an optional sign followed by digits, such as
      "12abc", a lone "-", "2048\tkB" or the "2048\t" of "2048\t kB", gives 0. */
  lemma MeminfoHelperNotInteger(pad: string, tok: string, rest: string)
    requires AllSpace(pad)
    requires IsToken(tok) && EndsToken(tok, rest)
    requires !IsDigits(if tok[0] == '+' || tok[0] == '-' then tok[1..] else tok)
    ensures MeminfoHelper(pad + tok + rest) == 0
  {
    FirstToken(pad, tok, rest);
  }

  /** White space other than a space right after the number, then a space and
      a unit, as in "2048\t kB", makes the value unreadable too. */
  lemma MeminfoHelperWhiteBeforeSpace(pad: string, ds: string, c: char, rest: string)
    requires AllSpace(pad) && IsDigits(ds)
    requires IsSpace(c) && c != ' '
    requires !AllSpace(rest) && rest[0] == ' '
    ensures MeminfoHelper(pad + ds + [c] + rest) == 0
  {
    var tok := WhiteToken(ds, c);
    Associative(pad, ds, [c]);
    MeminfoHelperNotInteger(pad, tok, rest);
  }

  /** A number and a white-space character other than a space form one token
      that is not an integer. */
  lemma WhiteToken(ds: string, c: char) returns (tok: string)
    requires IsDigits(ds) && IsSpace(c) && c != ' '
    ensures tok == ds + [c]
    ensures IsToken(tok) && !IsDigits(if tok[0] == '+' || tok[0] == '-' then tok[1..] else tok)
  {
    tok := ds + [c];
    assert tok[0] == ds[0] && tok[|ds|] == c;
    assert ' ' !in tok by {
      assert forall i :: 0 <= i < |ds| ==> tok[i] == ds[i];
    }
  }

  /** A tab between the number and the unit makes the value unreadable: the
      text before the first space is then the number, the tab and the unit. */
  lemma MeminfoHelperTabBeforeUnit(pad: string, ds: string, unit: string, rest: string)
    requires AllSpace(pad) && IsDigits(ds)
    requires unit != [] && !IsSpace(unit[|unit| - 1]) && ' ' !in unit
    requires AllSpace(rest) || rest[0] == ' '
    ensures MeminfoHelper(pad + ds + "\t" + unit + rest) == 0
  {
    var tok := TabToken(ds, unit);
    Regroup(pad, ds, "\t", unit, rest);
    MeminfoHelperNotInteger(pad, tok, rest);
  }

  /** A number, a tab and a unit form one token that is not an integer. */
  lemma TabToken(ds: string, unit: string) returns (tok: string)
    requires IsDigits(ds)
    requires unit != [] && !IsSpace(unit[|unit| - 1]) && ' ' !in unit
    ensures tok == ds + "\t" + unit && !IsSpace(tok[|tok| - 1])
    ensures IsToken(tok) && !IsDigits(if tok[0] == '+' || tok[0] == '-' then tok[1..] else tok)
  {
    tok := ds + "\t" + unit;
    assert tok[|ds|] == '\t' && tok[0] == ds[0];
    assert tok[|tok| - 1] == unit[|unit| - 1];
    assert ' ' !in tok by {
      assert forall i :: 0 <= i < |ds| ==> tok[i] == ds[i];
      assert forall i :: |ds| + 1 <= i < |tok| ==> tok[i] == unit[i - |ds| - 1];
    }
  }

  /** The usual /proc/meminfo value, a number in kB: meminfoHelper gives the
      number times 1024 in uint64 arithmetic, which is the exact product for
      every non-negative number below 2^54. */
  lemma MeminfoHelperReadsNumber(pad: string, n: int, rest: string)
    requires AllSpace(pad) && InInt64(n)
    requires AllSpace(rest) || rest[0] == ' '
    ensures MeminfoHelper(pad + Itoa(n) + rest) == (ToUint64(n) * 1024) % TWO_TO_THE_64
    ensures 0 <= n < 0x40_0000_0000_0000 ==> MeminfoHelper(pad + Itoa(n) + rest) == n * 1024
  {
    var tok := Itoa(n);
    assert IsToken(tok) && !IsSpace(tok[|tok| - 1]) by {
      if n < 0 {
        assert forall i :: 1 <= i < |tok| ==> tok[i] == DigitsOf(-n)[i - 1];
      }
    }
    FirstToken(pad, tok, rest);
    AtoiItoa(n);
    var parts := Split(TrimSpace(pad + tok + rest), ' ');
    assert MeminfoHelper(pad + tok + rest) == (ToUint64(n) * 1024) % TWO_TO_THE_64;
    if 0 <= n < 0x40_0000_0000_0000 {
      NoWrap(n);
    }
  }

  /** Below 2^54 neither the conversion nor the product wraps. */
  lemma NoWrap(n: int)
    requires 0 <= n < 0x40_0000_0000_0000
    ensures (ToUint64(n) * 1024) % TWO_TO_THE_64 == n * 1024
  {
    assert ToUint64(n) == n;
    assert 0 <= n * 1024 < TWO_TO_THE_64;
  }

  /** A value that is empty or white space only gives 0. */
  lemma MeminfoHelperBlank(s: string)
    requires AllSpace(s)
    ensures MeminfoHelper(s) == 0
  {
    TrimSpacePadded(s, [], []);
    assert s + [] + [] == s;
  }

  /** A value whose first non-space character cannot start an integer gives 0. */
  lemma MeminfoHelperNotNumber(pad: string, c: char, rest: string)
    requires AllSpace(pad)
    requires !IsSpace(c) && !IsDigit(c) && c != '+' && c != '-'
    ensures MeminfoHelper(pad + [c] + rest) == 0
  {
    assert pad + [c] + rest == pad + ([c] + rest);
    TrimLeftPadded(pad, [c] + rest);
    var trimmed := TrimSpace(pad + [c] + rest);
    assert trimmed != [];
    assert trimmed[0] == c;
    var first := Split(trimmed, ' ')[0];
    assert first != [] && first[0] == c by {
      match IndexOf(trimmed, ' ')
      case None =>
      case Some(i) =>
    }
  }

  /** A line as bufio.Reader.ReadString('\n') returns it while reading succeeds. */
  predicate Terminated(line: string) {
    |line| > 0 && line[|line| - 1] == '\n'
  }

  /** The newline-terminated lines of `text`, in order; a last piece with no
      newline is not among them, because ReadString reports it with io.EOF. */
  function Lines(text: string): (ls: seq<string>)
    ensures forall k :: 0 <= k < |ls| ==> Terminated(ls[k]) && '\n' !in ls[k][..|ls[k]| - 1]
    decreases |text|
  {
    match IndexOf(text, '\n')
    case None => []
    case Some(i) =>
      assert text[..i + 1][..i] == text[..i];
      [text[..i + 1]] + Lines(text[i + 1..])
  }

  function Concat(ls: seq<string>): string {
    if ls == [] then [] else Concat(ls[..|ls| - 1]) + ls[|ls| - 1]
  }

  /** The lines are the text up to its last newline, read in order. */
  lemma {:induction false} LinesCover(text: string)
    ensures Concat(Lines(text)) <= text
    ensures '\n' !in text[|Concat(Lines(text))|..]
    decreases |text|
  {
    match IndexOf(text, '\n')
    case None =>
      assert Concat(Lines(text)) == [];
      assert text[0..] == text;
    case Some(i) =>
      var rest := text[i + 1..];
      LinesCover(rest);
      CoverStep(text, i);
      PrefixStep(text, i + 1, Concat(Lines(rest)));
  }

  /** The lines of a text that holds a newline are its first line followed by
      the lines after it. */
  lemma CoverStep(text: string, i: nat)
    requires IndexOf(text, '\n') == Some(i)
    ensures Concat(Lines(text)) == text[..i + 1] + Concat(Lines(text[i + 1..]))
  {
    var first := text[..i + 1];
    assert Lines(text) == [first] + Lines(text[i + 1..]);
    ConcatCons(first, Lines(text[i + 1..]));
  }

  lemma {:induction false} ConcatCons(l: string, ls: seq<string>)
    ensures Concat([l] + ls) == l + Concat(ls)
    decreases |ls|
  {
    if ls != [] {
      assert ([l] + ls)[..|ls|] == [l] + ls[..|ls| - 1];
      ConcatCons(l, ls[..|ls| - 1]);
    } else {
      assert [l] + ls == [l];
      assert Concat([l]) == Concat([]) + l;
    }
  }

  /** Reading stops only at the end of the text: the lines of a text that ends
      with a newline are followed by those of whatever comes after it. */
  lemma {:induction false} LinesAppend(t: string, u: string)
    requires t == [] || t[|t| - 1] == '\n'
    ensures Lines(t + u) == Lines(t) + Lines(u)
    decreases |t|
  {
    if t == [] {
      assert t + u == u;
    } else {
      var i := LinesStep(t, u);
      var tail := t[i + 1..];
      assert tail == [] || tail[|tail| - 1] == '\n' by {
        assert tail == [] || tail[|tail| - 1] == t[|t| - 1];
      }
      LinesAppend(tail, u);
      Associative([t[..i + 1]], Lines(tail), Lines(u));
    }
  }

  /** Appending to a text that holds a newline does not change its first line. */
  lemma LinesStep(t: string, u: string) returns (i: nat)
    requires t != [] && t[|t| - 1] == '\n'
    ensures IndexOf(t, '\n') == Some(i)
    ensures Lines(t) == [t[..i + 1]] + Lines(t[i + 1..])
    ensures Lines(t + u) == [t[..i + 1]] + Lines(t[i + 1..] + u)
  {
    assert t[|t| - 1] in t;
    IndexOfAppend(t, u, '\n');
    i := IndexOf(t, '\n').value;
    assert (t + u)[..i + 1] == t[..i + 1];
    assert (t + u)[i + 1..] == t[i + 1..] + u;
  }

  /** One terminated line with no other newline reads as itself. */
  lemma SingleLine(line: string)
    requires Terminated(line) && '\n' !in line[..|line| - 1]
    ensures Lines(line) == [line]
  {
    IndexOfIs(line, '\n', |line| - 1);
    Whole(line);
    assert Lines(line[|line|..]) == [];
  }

  /** The key of a line, `parts[0]` after splitting at ':'. */
  function Key(line: string): string {
    Split(line, ':')[0]
  }

  /** A line whose key is recognised has a value part: the key has no newline
      while a line without ':' is its own key and ends with one. */
  lemma RecognisedLineHasValue(line: string, f: Field)
    requires Terminated(line) && Key(line) == KeyOf(f)
    ensures |Split(line, ':')| >= 2
  {
  }

  /** The effect of one line: a recognised key sets its own field, from the
      text between the first and second ':', and nothing else; any other key
      leaves the record as it was. */
  function ApplyLine(m: MemoryCounters, line: string): (r: MemoryCounters)
    requires Terminated(line)
    ensures forall f :: KeyOf(f) != Key(line) ==> Get(r, f) == Get(m, f)
    ensures forall f :: KeyOf(f) == Key(line) ==>
      |Split(line, ':')| >= 2 && Get(r, f) == MeminfoHelper(Split(line, ':')[1])
  {
    match FieldNamed(Key(line))
    case None => m
    case Some(f) =>
      RecognisedLineHasValue(line, f);
      With(m, f, MeminfoHelper(Split(line, ':')[1]))
  }

  /** The record after processing `ls` in order, from the zero record. */
  function ParseLines(ls: seq<string>): (r: MemoryCounters)
    requires forall l <- ls :: Terminated(l)
    ensures forall f :: Get(r, f) % 1024 == 0
  {
    if ls == [] then Zero else ApplyLine(ParseLines(ls[..|ls| - 1]), ls[|ls| - 1])
  }

  /** What getMemStats computes from the readable content of /proc/meminfo. */
  function MemStats(text: string): (r: MemoryCounters)
    ensures forall f :: Get(r, f) % 1024 == 0
    ensures '\n' !in text ==> r == Zero
  {
    ParseLines(Lines(text))
  }

  /** A key that no line carries leaves its field at zero. */
  lemma {:induction false} AbsentKeyIsZero(ls: seq<string>, f: Field)
    requires forall l <- ls :: Terminated(l)
    requires forall i :: 0 <= i < |ls| ==> Key(ls[i]) != KeyOf(f)
    ensures Get(ParseLines(ls), f) == 0
  {
    if ls != [] {
      AbsentKeyIsZero(ls[..|ls| - 1], f);
    }
  }

  /** When a key occurs on several lines the last of them decides its field. */
  lemma {:induction false} LastWriteWins(ls: seq<string>, f: Field, i: nat)
    requires forall l <- ls :: Terminated(l)
    requires i < |ls| && Key(ls[i]) == KeyOf(f)
    requires forall j :: i < j < |ls| ==> Key(ls[j]) != KeyOf(f)
    ensures |Split(ls[i], ':')| >= 2
    ensures Get(ParseLines(ls), f) == MeminfoHelper(Split(ls[i], ':')[1])
    decreases |ls|
  {
    RecognisedLineHasValue(ls[i], f);
    var init, last := ls[..|ls| - 1], ls[|ls| - 1];
    assert ParseLines(ls) == ApplyLine(ParseLines(init), last);
    if i < |ls| - 1 {
      assert init[i] == ls[i];
      LastWriteWins(init, f, i);
      assert Key(last) != KeyOf(f);
    }
  }

  /** A line with an unrecognised key changes nothing, wherever it stands. */
  lemma {:induction false} UnrecognisedLineIgnored(a: seq<string>, l: string, b: seq<string>)
    requires forall x <- a + b :: Terminated(x)
    requires Terminated(l) && FieldNamed(Key(l)).None?
    ensures ParseLines(a + [l] + b) == ParseLines(a + b)
    decreases |b|
  {
    if b == [] {
      assert (a + [l] + b)[..|a|] == a;
      assert a + b == a;
      SameFields(ApplyLine(ParseLines(a), l), ParseLines(a));
    } else {
      var b' := b[..|b| - 1];
      assert (a + [l] + b)[..|a + [l] + b| - 1] == a + [l] + b';
      assert (a + b)[..|a + b| - 1] == a + b';
      UnrecognisedLineIgnored(a, l, b');
    }
  }

  /** A last piece of text without a newline is never read. */
  lemma UnterminatedTailIgnored(t: string, u: string)
    requires t == [] || t[|t| - 1] == '\n'
    requires '\n' !in u
    ensures MemStats(t + u) == MemStats(t)
  {
    LinesAppend(t, u);
    assert Lines(t) + [] == Lines(t);
  }

  /** A file holding the line "MemTotal:   2048 kB" reports 2048 KiB of total
      memory as 2097152 bytes. */
  lemma MemTotalExample()
    ensures MemStats("MemTotal:   2048 kB\n").total == 2048 * 1024
  {
    var line := "MemTotal:   2048 kB\n";
    assert Terminated(line) && '\n' !in line[..|line| - 1];
    SingleLine(line);
    ExampleSplits();
    ExampleValue();
    assert Key(line) == KeyOf(Total);
  }

  lemma ExampleSplits()
    ensures Split("MemTotal:   2048 kB\n", ':') == ["MemTotal", "   2048 kB\n"]
  {
    var parts := ["MemTotal", "   2048 kB\n"];
    assert Join(parts, ':') == "MemTotal:   2048 kB\n";
    assert ':' !in parts[0] && ':' !in parts[1];
    SplitJoin(parts, ':');
  }

  lemma ExampleValue()
    ensures MeminfoHelper("   2048 kB\n") == 2048 * 1024
  {
    assert "   2048 kB\n" == "   " + Itoa(2048) + " kB\n" by {
      assert DigitsOf(2) == ['2'];
      assert DigitsOf(20) == DigitsOf(2) + ['0'];
      assert DigitsOf(204) == DigitsOf(20) + ['4'];
      assert DigitsOf(2048) == DigitsOf(204) + ['8'];
    }
    MeminfoHelperReadsNumber("   ", 2048, " kB\n");
  }

  /** getMemStats. `meminfo` is the readable content of /proc/meminfo, or None
      when the file cannot be opened. The loop runs while ReadString finds a
      newline, so the record is that of the terminated lines, in order. */
  method GetMemStats(meminfo: Option<string>) returns (r: Result<MemoryCounters>)
    ensures meminfo.None? <==> r.Err?
    ensures meminfo.Some? ==> r == Ok(MemStats(meminfo.value))
  {
    if meminfo.None? {
      return Err("open /proc/meminfo");
    }
    var text := meminfo.value;
    var m := Zero;
    var pos := 0;
    var next := IndexOf(text[pos..], '\n');
    assert text[..pos] == [];
    while next.Some?
      invariant 0 <= pos <= |text|
      invariant pos == 0 || text[pos - 1] == '\n'
      invariant next == IndexOf(text[pos..], '\n')
      invariant m == MemStats(text[..pos])
      decreases |text| - pos
    {
      var end := pos + next.value + 1;
      ReadOneLine(text, pos, end);
      var line := text[pos..end];
      m := SwitchOnKey(m, line);
      pos := end;
      next := IndexOf(text[pos..], '\n');
    }
    ReadToEnd(text, pos);
    return Ok(m);
  }

  /** When ReadString finds no further newline, every line has been read. */
  lemma ReadToEnd(text: string, pos: nat)
    requires pos <= |text| && (pos == 0 || text[pos - 1] == '\n')
    requires IndexOf(text[pos..], '\n').None?
    ensures Lines(text) == Lines(text[..pos])
  {
    Rejoin(text, pos);
    LinesNoTail(text[..pos], text[pos..]);
  }

  /** Text without a newline after a complete line adds no line. */
  lemma LinesNoTail(t: string, u: string)
    requires t == [] || t[|t| - 1] == '\n'
    requires IndexOf(u, '\n').None?
    ensures Lines(t + u) == Lines(t)
  {
    assert Lines(u) == [];
    LinesAppend(t, u);
    NoneAppended(Lines(t));
  }

  /** The body of getMemStats's loop: split the line at ':' and switch on
      the key; the six recognised keys each overwrite one field. */
  method SwitchOnKey(m: MemoryCounters, line: string) returns (r: MemoryCounters)
    requires Terminated(line)
    ensures r == ApplyLine(m, line)
  {
    var parts := Split(line, ':');
    r := m;
    match parts[0] {
      case "MemTotal" =>
        SetsOneField(m, line, Total);
        r := r.(total := MeminfoHelper(parts[1]));
      case "MemFree" =>
        SetsOneField(m, line, Free);
        r := r.(free := MeminfoHelper(parts[1]));
      case "Buffers" =>
        SetsOneField(m, line, Buffers);
        r := r.(buffers := MeminfoHelper(parts[1]));
      case "Cached" =>
        SetsOneField(m, line, Cached);
        r := r.(cached := MeminfoHelper(parts[1]));
      case "SwapTotal" =>
        SetsOneField(m, line, SwapTotal);
        r := r.(swapTotal := MeminfoHelper(parts[1]));
      case "SwapFree" =>
        SetsOneField(m, line, SwapFree);
        r := r.(swapFree := MeminfoHelper(parts[1]));
      case _ =>
        assert FieldNamed(parts[0]).None?;
    }
  }

  /** A line with a recognised key sets that key's field and no other. */
  lemma SetsOneField(m: MemoryCounters, line: string, f: Field)
    requires Terminated(line) && Key(line) == KeyOf(f)
    ensures |Split(line, ':')| >= 2
    ensures ApplyLine(m, line) == With(m, f, MeminfoHelper(Split(line, ':')[1]))
  {
    var r := With(m, f, MeminfoHelper(Split(line, ':')[1]));
    SameFields(ApplyLine(m, line), r);
  }

  /** One ReadString step: the record grows by the effect of exactly the next line. */
  lemma ReadOneLine(text: string, pos: nat, end: nat)
    requires pos < end <= |text| && (pos == 0 || text[pos - 1] == '\n')
    requires IndexOf(text[pos..], '\n') == Some(end - pos - 1)
    ensures text[end - 1] == '\n' && Terminated(text[pos..end])
    ensures MemStats(text[..end]) == ApplyLine(MemStats(text[..pos]), text[pos..end])
  {
    var line := text[pos..end];
    LinesOneMore(text, pos, end);
    ParseOneMore(Lines(text[..pos]), line);
  }

  /** Reading up to the end of the next line yields one more line. */
  lemma LinesOneMore(text: string, pos: nat, end: nat)
    requires pos < end <= |text| && (pos == 0 || text[pos - 1] == '\n')
    requires IndexOf(text[pos..], '\n') == Some(end - pos - 1)
    ensures text[end - 1] == '\n' && Terminated(text[pos..end])
    ensures Lines(text[..end]) == Lines(text[..pos]) + [text[pos..end]]
  {
    var line := text[pos..end];
    assert line[..|line| - 1] == text[pos..][..end - pos - 1];
    assert text[..end] == text[..pos] + line;
    LinesAppend(text[..pos], line);
    SingleLine(line);
  }

  /** The fold takes one more line by applying it to the record so far. */
  lemma ParseOneMore(ls: seq<string>, line: string)
    requires forall l <- ls :: Terminated(l)
    requires Terminated(line)
    ensures ParseLines(ls + [line]) == ApplyLine(ParseLines(ls), line)
  {
    var all := ls + [line];
    assert all[..|all| - 1] == ls;
  }
}
