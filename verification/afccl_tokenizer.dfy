/**
 * `tokenize_command_line` of tools/afccl.c: a three-state scanner that splits a command
 * line into words in place. The read pointer `p` and the write pointer `pout` walk the
 * same buffer; `pout` never passes `p`, so every byte is read before it can be
 * overwritten. Each word is a pointer into the buffer, and its text is the C string found
 * there when the scan is over.
 *
 * Outside quotes, white space ends a word and a backslash copies the next byte as it is.
 * A double quote opens a span, inside which white space is kept and `\"` gives `"`; the
 * span's closing quote goes back to the word. A line ending inside a span is refused.
 */
module AfcclTokenizer {
  import opened Wrappers
  import opened CText

  datatype Mode = Idle | InQuote | InWord

  /** The scanner: its mode, the two pointers as indices, the buffer, and the word starts. */
  datatype Scan = Scan(mode: Mode, p: nat, pout: nat, mem: seq<char>, argv: seq<nat>)

  /** The byte of the input at `i`, its NUL just past the end. */
  function InputAt(s: seq<char>, i: nat): char {
    if i < |s| then s[i] else NUL
  }

  /**
   * What holds between passes over the input `s`: the buffer is the input and its NUL,
   * rewritten only below `p`; `pout` trails `p`; a word or span is open only inside the
   * input; every word starts at or below `pout`.
   */
  predicate Inv(s: seq<char>, sc: Scan) {
    |sc.mem| == |s| + 1
    && sc.pout <= sc.p <= |s| + 1
    && (sc.mode != Idle ==> sc.p <= |s|)
    && (forall i :: sc.p <= i < |sc.mem| ==> sc.mem[i] == InputAt(s, i))
    && sc.mem[|s|] == NUL
    && (forall k :: 0 <= k < |sc.argv| ==> sc.argv[k] <= sc.pout)
  }

  /** A bound on the passes left: every pass moves `p` on, or leaves `Idle` for `InWord`. */
  function Measure(s: seq<char>, sc: Scan): nat
    requires sc.p <= |s| + 1
  {
    2 * (|s| + 1 - sc.p) + (if sc.mode == Idle then 1 else 0)
  }

  /** The copy of one byte, read at `q`, to `pout`; both pointers move on. */
  function Copy(sc: Scan, q: nat, mode: Mode): Scan
    requires sc.pout < |sc.mem| && q < |sc.mem|
  {
    sc.(mode := mode, p := q + 1, pout := sc.pout + 1, mem := sc.mem[sc.pout := sc.mem[q]])
  }

  /** One pass of the `while (p < pmax)` loop. */
  function Step(s: seq<char>, sc: Scan): (r: Scan)
    requires Inv(s, sc) && sc.p < |s|
    ensures Inv(s, r)
    ensures Measure(s, r) < Measure(s, sc)
    ensures r.pout >= sc.pout && forall i :: 0 <= i < sc.pout ==> r.mem[i] == sc.mem[i]
    ensures |r.argv| >= |sc.argv| && r.argv[..|sc.argv|] == sc.argv
  {
    var c := sc.mem[sc.p];
    match sc.mode
    case Idle =>
      if IsSpace(c) then sc.(p := sc.p + 1)
      else sc.(mode := InWord, argv := sc.argv + [sc.pout])
    case InWord =>
      if IsSpace(c) then
        sc.(mode := Idle, p := sc.p + 1, pout := sc.pout + 1, mem := sc.mem[sc.pout := NUL])
      else if c == '"' then sc.(mode := InQuote, p := sc.p + 1)
      else
        var q := if c == '\\' then sc.p + 1 else sc.p;
        var r := Copy(sc, q, InWord);
        if r.p >= |s| then r.(mode := Idle, mem := r.mem[r.pout := NUL]) else r
    case InQuote =>
      if c == '"' then sc.(mode := InWord, p := sc.p + 1)
      else
        var q := if c == '\\' && sc.mem[sc.p + 1] == '"' then sc.p + 1 else sc.p;
        Copy(sc, q, InQuote)
  }

  /** The loop, to the end of the input. */
  function Run(s: seq<char>, sc: Scan): (r: Scan)
    requires Inv(s, sc)
    ensures Inv(s, r) && r.p >= |s|
    ensures r.pout >= sc.pout && forall i :: 0 <= i < sc.pout ==> r.mem[i] == sc.mem[i]
    ensures |r.argv| >= |sc.argv| && r.argv[..|sc.argv|] == sc.argv
    decreases Measure(s, sc)
  {
    if sc.p < |s| then Run(s, Step(s, sc)) else sc
  }

  /** The C strings the word pointers point at. */
  function Texts(mem: seq<char>, argv: seq<nat>): (ws: seq<seq<char>>)
    requires forall k :: 0 <= k < |argv| ==> argv[k] <= |mem|
    ensures |ws| == |argv|
  {
    seq(|argv|, k requires 0 <= k < |argv| => CStringAt(mem, argv[k]))
  }

  /** The scanner before the first pass. */
  function Start(s: seq<char>): (sc: Scan)
    ensures Inv(s, sc)
  {
    Scan(Idle, 0, 0, s + [NUL], [])
  }

  /**
   * `tokenize_command_line(input, &argc, &argv)` on a line, `None` standing for a `NULL`
   * line: the words, or `None` for the -1 of an unterminated quote. As written, a word that
   * a closing quote ends at the end of the line gets no NUL; repaired, it gets one.
   */
  function Tokenize(p: Policy, input: Option<seq<char>>): (r: Option<seq<seq<char>>>)
    requires input.Some? ==> NUL !in input.value
    ensures input.None? ==> r == Some([])
    ensures input.Some? && |input.value| == 0 ==> r == Some([])
    ensures input.Some? && |input.value| > 0 ==> (r.None? <==> Run(input.value, Start(input.value)).mode == InQuote)
  {
    match input
    case None => Some([])
    case Some(s) =>
      if |s| == 0 then Some([])
      else
        var e := Run(s, Start(s));
        if e.mode == InQuote then None
        else
          var mem := if p == Repaired && e.mode == InWord then e.mem[e.pout := NUL] else e.mem;
          Some(Texts(mem, e.argv))
  }

  // ----- the reference for lines without quotes or backslashes -----

  /** The first index from `i` on that is not white space. */
  function SkipSpaces(s: seq<char>, i: nat): (j: nat)
    requires i <= |s|
    ensures i <= j <= |s|
    ensures forall k :: i <= k < j ==> IsSpace(s[k])
    ensures j < |s| ==> !IsSpace(s[j])
    decreases |s| - i
  {
    if i < |s| && IsSpace(s[i]) then SkipSpaces(s, i + 1) else i
  }

  /** The first index from `i` on that is white space. */
  function RunEnd(s: seq<char>, i: nat): (j: nat)
    requires i <= |s|
    ensures i <= j <= |s|
    ensures forall k :: i <= k < j ==> !IsSpace(s[k])
    ensures j < |s| ==> IsSpace(s[j])
    decreases |s| - i
  {
    if i < |s| && !IsSpace(s[i]) then RunEnd(s, i + 1) else i
  }

  /** The maximal runs of bytes that are not white space, from `i` on, in order. */
  function WordsFrom(s: seq<char>, i: nat): (ws: seq<seq<char>>)
    requires i <= |s|
    ensures forall k :: 0 <= k < |ws| ==> |ws[k]| > 0 && forall j :: 0 <= j < |ws[k]| ==> !IsSpace(ws[k][j])
    decreases |s| - i
  {
    var a := SkipSpaces(s, i);
    if a == |s| then []
    else
      var b := RunEnd(s, a);
      assert forall j :: 0 <= j < b - a ==> s[a..b][j] == s[a + j];
      [s[a..b]] + WordsFrom(s, b)
  }

  predicate Plain(s: seq<char>) {
    forall i :: 0 <= i < |s| ==> s[i] != '"' && s[i] != '\\' && s[i] != NUL
  }

  /** `w` stands at `start` in `mem`, followed by its NUL. */
  predicate Held(mem: seq<char>, start: nat, w: seq<char>) {
    start + |w| < |mem| && mem[start..start + |w|] == w && mem[start + |w|] == NUL
  }

  /** The word pointers from index `from` on hold the words `ws`, in order. */
  predicate HoldsFrom(mem: seq<char>, argv: seq<nat>, from: nat, ws: seq<seq<char>>) {
    from <= |argv| && |argv| - from == |ws|
    && forall k :: 0 <= k < |ws| ==> Held(mem, argv[from + k], ws[k])
  }

  /** A NUL written just after a word's bytes makes it held. */
  lemma {:induction false} HeldAfterNul(mem: seq<char>, start: nat, end: nat, w: seq<char>)
    requires start + |w| == end < |mem| && mem[start..end] == w
    ensures Held(mem[end := NUL], start, w)
  {
    assert mem[end := NUL][start..end] == mem[start..end];
  }

  lemma {:induction false} PrefixAt(long: seq<nat>, short: seq<nat>, k: nat)
    requires |short| <= |long| && long[..|short|] == short && k < |short|
    ensures long[k] == short[k]
  {
    assert long[..|short|][k] == long[k];
  }

  lemma {:induction false} HeldKept(m1: seq<char>, m2: seq<char>, start: nat, w: seq<char>, below: nat)
    requires Held(m1, start, w) && start + |w| < below <= |m1| == |m2|
    requires forall i :: 0 <= i < below ==> m2[i] == m1[i]
    ensures Held(m2, start, w)
  {
    assert m2[start..start + |w|] == m1[start..start + |w|];
  }

  /** A held word reads back as the C string at its start. */
  lemma {:induction false} HeldText(mem: seq<char>, start: nat, w: seq<char>)
    requires Held(mem, start, w) && NUL !in w
    ensures CStringAt(mem, start) == w
    decreases |w|
  {
    if |w| > 0 {
      assert mem[start] == w[0] != NUL;
      assert mem[start + 1..start + 1 + |w[1..]|] == w[1..];
      HeldText(mem, start + 1, w[1..]);
    }
  }

  lemma {:induction false} HoldsCons(mem: seq<char>, argv: seq<nat>, from: nat, w: seq<char>, ws: seq<seq<char>>)
    requires from < |argv| && Held(mem, argv[from], w) && HoldsFrom(mem, argv, from + 1, ws)
    ensures HoldsFrom(mem, argv, from, [w] + ws)
  {
    forall k | 0 <= k < |[w] + ws| ensures Held(mem, argv[from + k], ([w] + ws)[k]) {
      if k > 0 {
        assert ([w] + ws)[k] == ws[k - 1];
        assert argv[from + k] == argv[(from + 1) + (k - 1)];
      }
    }
  }

  /** A pass from `Idle` on a plain line: skip white space, or open a word at `pout`. */
  lemma {:induction false} StepIdle(s: seq<char>, sc: Scan)
    requires Inv(s, sc) && sc.mode == Idle && sc.p < |s|
    ensures sc.mem[sc.p] == s[sc.p]
    ensures IsSpace(s[sc.p]) ==> Step(s, sc) == sc.(p := sc.p + 1)
    ensures !IsSpace(s[sc.p]) ==> Step(s, sc) == sc.(mode := InWord, argv := sc.argv + [sc.pout])
  {
  }

  /** The words from the start of a word: that word, then the words after it. */
  lemma {:induction false} WordsSplit(s: seq<char>, a: nat)
    requires a < |s| && !IsSpace(s[a])
    ensures WordsFrom(s, a) == [s[a..RunEnd(s, a)]] + WordsFrom(s, RunEnd(s, a))
  {
    assert SkipSpaces(s, a) == a;
  }

  /** A line without quotes or backslashes splits into exactly its maximal runs of non-space bytes. */
  lemma {:induction false} TokenizePlain(p: Policy, s: seq<char>)
    requires Plain(s)
    ensures Tokenize(p, Some(s)) == Some(WordsFrom(s, 0))
  {
    assert NUL !in s;
    PlainWords(s, 0);
    if p == Repaired {
      TokenizeIsWords(s);
    } else {
      AsWrittenIsWords(s);
    }
  }

  lemma {:induction false} TextsOne(mem: seq<char>, a: nat, w: seq<char>)
    requires a <= |mem| && CStringAt(mem, a) == w
    ensures Texts(mem, [a]) == [w]
  {
  }

  /** What `Tokenize` answers, once the scan of a nonempty line is known to end outside quotes. */
  lemma {:induction false} TokenizeOfScan(p: Policy, s: seq<char>, e: Scan)
    requires NUL !in s && |s| > 0 && Run(s, Start(s)) == e && e.mode != InQuote
    ensures Inv(s, e)
    ensures Tokenize(p, Some(s)) == Some(Texts(if p == Repaired && e.mode == InWord then e.mem[e.pout := NUL] else e.mem, e.argv))
  {
  }

  /** A scan that has read the whole input is over. */
  lemma {:induction false} RunOver(s: seq<char>, sc: Scan)
    requires Inv(s, sc) && sc.p >= |s|
    ensures Run(s, sc) == sc
  {
  }

  /** A scan with input left takes one pass. */
  lemma {:induction false} RunOn(s: seq<char>, sc: Scan)
    requires Inv(s, sc) && sc.p < |s|
    ensures Run(s, sc) == Run(s, Step(s, sc))
  {
  }

  /** A byte with no meaning to the scanner. */
  predicate Ordinary(c: char) {
    !IsSpace(c) && c != '"' && c != '\\' && c != NUL
  }

  /** The line `x"y"`: its scan ends in `InWord`, the buffer reading `xyy"` and one word at 0. */
  lemma {:induction false} QuoteAtEndScan(x: char, y: char)
    requires Ordinary(x) && Ordinary(y)
    ensures Run([x, '"', y, '"'], Start([x, '"', y, '"'])) == Scan(InWord, 4, 2, [x, y, y, '"', NUL], [0])
  {
    var s := [x, '"', y, '"'];
    var m0 := s + [NUL];
    var m1 := [x, y, y, '"', NUL];
    var s0 := Start(s);
    var s1 := Scan(InWord, 0, 0, m0, [0]);
    var s2 := Scan(InWord, 1, 1, m0, [0]);
    var s3 := Scan(InQuote, 2, 1, m0, [0]);
    var s4 := Scan(InQuote, 3, 2, m1, [0]);
    var s5 := Scan(InWord, 4, 2, m1, [0]);
    assert m0[0 := m0[0]] == m0;
    assert m0[1 := m0[2]] == m1;
    assert Step(s, s0) == s1;
    assert Step(s, s1) == s2;
    assert Step(s, s2) == s3;
    assert Step(s, s3) == s4;
    assert Step(s, s4) == s5;
    RunOn(s, s0);
    RunOn(s, s1);
    RunOn(s, s2);
    RunOn(s, s3);
    RunOn(s, s4);
    RunOver(s, s5);
  }

  /**
   * As written, a word that a closing quote ends at the end of the line is not terminated:
   * its text runs on into the bytes the scan left behind.
   */
  lemma {:induction false} AsWrittenQuoteAtEndUnterminated(x: char, y: char)
    requires Ordinary(x) && Ordinary(y)
    ensures Tokenize(AsWritten, Some([x, '"', y, '"'])) == Some([[x, y, y, '"']])
  {
    var m := [x, y, y, '"'] + [NUL] + [];
    QuoteAtEndScan(x, y);
    TokenizeOfScan(AsWritten, [x, '"', y, '"'], Scan(InWord, 4, 2, m, [0]));
    CStringAtTerminated([x, y, y, '"'], [], 0);
    TextsOne(m, 0, [x, y, y, '"']);
  }

  /** Repaired, the same word ends where its bytes do. */
  lemma {:induction false} RepairedQuoteAtEndTerminated(x: char, y: char)
    requires Ordinary(x) && Ordinary(y)
    ensures Tokenize(Repaired, Some([x, '"', y, '"'])) == Some([[x, y]])
  {
    var e := Scan(InWord, 4, 2, [x, y, y, '"', NUL], [0]);
    var m := [x, y] + [NUL] + ['"', NUL];
    QuoteAtEndScan(x, y);
    TokenizeOfScan(Repaired, [x, '"', y, '"'], e);
    assert e.mem[2 := NUL] == m;
    CStringAtTerminated([x, y], ['"', NUL], 0);
    TextsOne(m, 0, [x, y]);
  }

  // ----- the reference for every line: quotes and backslashes -----

  /** The bytes `u` in front of the word read by `o`, which resumes at the same index. */
  function Prepend(u: seq<char>, o: Option<(seq<char>, nat)>): Option<(seq<char>, nat)> {
    match o
    case None => None
    case Some((w, j)) => Some((u + w, j))
  }

  /**
   * Inside a word, from index `i`: the bytes the word still gets, and the index where the
   * reading goes on outside it. White space ends the word and is passed over; a double
   * quote opens a quoted span; a backslash stands for the byte after it, and one at the end
   * of the line for nothing. `None` when the line ends inside quotes.
   */
  function WordRest(s: seq<char>, i: nat): (r: Option<(seq<char>, nat)>)
    requires i <= |s| + 1
    ensures r.Some? ==> i <= r.value.1 <= |s| + 1 && (i < |s| ==> i < r.value.1)
    ensures r.Some? && NUL !in s ==> NUL !in r.value.0
    decreases |s| + 1 - i
  {
    if i >= |s| then Some(([], i))
    else if IsSpace(s[i]) then Some(([], i + 1))
    else if s[i] == '"' then QuoteRest(s, i + 1)
    else if s[i] == '\\' then
      if i + 1 == |s| then Some(([], |s| + 1)) else Prepend([s[i + 1]], WordRest(s, i + 2))
    else Prepend([s[i]], WordRest(s, i + 1))
  }

  /**
   * Inside quotes, from index `i`: white space is kept, `\"` stands for a quote, any other
   * byte for itself, and the closing quote goes back to the word. `None` when the line
   * ends first.
   */
  function QuoteRest(s: seq<char>, i: nat): (r: Option<(seq<char>, nat)>)
    requires i <= |s| + 1
    ensures r.Some? ==> i < r.value.1 <= |s| + 1
    ensures r.Some? && NUL !in s ==> NUL !in r.value.0
    decreases |s| + 1 - i
  {
    if i >= |s| then None
    else if s[i] == '"' then WordRest(s, i + 1)
    else if s[i] == '\\' && i + 1 < |s| && s[i + 1] == '"' then Prepend(['"'], QuoteRest(s, i + 2))
    else Prepend([s[i]], QuoteRest(s, i + 1))
  }

  /** The words of the line from index `i` on, outside any word; `None` when it ends inside quotes. */
  function Words(s: seq<char>, i: nat): (r: Option<seq<seq<char>>>)
    requires i <= |s| + 1
    ensures r.Some? && NUL !in s ==> forall k :: 0 <= k < |r.value| ==> NUL !in r.value[k]
    decreases |s| + 1 - i, 2
  {
    if i >= |s| then Some([])
    else if IsSpace(s[i]) then Words(s, i + 1)
    else WordThen(s, i, [])
  }

  /** A word begun with the bytes `cur`, read on from `i`, then the words after it. */
  function WordThen(s: seq<char>, i: nat, cur: seq<char>): (r: Option<seq<seq<char>>>)
    requires i <= |s| + 1
    ensures r.Some? && NUL !in s && NUL !in cur ==> forall k :: 0 <= k < |r.value| ==> NUL !in r.value[k]
    decreases |s| + 1 - i, 1
  {
    if i >= |s| then Some([cur])
    else
      match WordRest(s, i)
      case None => None
      case Some((w, j)) =>
        match Words(s, j)
        case None => None
        case Some(ws) => Some([cur + w] + ws)
  }

  /** The same, with the word inside a quoted span at `i`. */
  function QuoteThen(s: seq<char>, i: nat, cur: seq<char>): (r: Option<seq<seq<char>>>)
    requires i <= |s| + 1
    ensures r.Some? && NUL !in s && NUL !in cur ==> forall k :: 0 <= k < |r.value| ==> NUL !in r.value[k]
    decreases |s| + 1 - i, 1
  {
    match QuoteRest(s, i)
    case None => None
    case Some((w, j)) =>
      match Words(s, j)
      case None => None
      case Some(ws) => Some([cur + w] + ws)
  }

  /** The buffer once the line is read, with the repaired NUL after a word still open. */
  function Final(e: Scan): seq<char> {
    if e.mode == InWord && e.pout < |e.mem| then e.mem[e.pout := NUL] else e.mem
  }

  /**
   * The scan from `sc` and the reference answer `o` agree: the scan ends inside quotes
   * exactly when `o` is `None`, and otherwise the word pointers from `from` on hold `o`'s
   * words.
   */
  predicate Agrees(s: seq<char>, sc: Scan, from: nat, o: Option<seq<seq<char>>>)
    requires Inv(s, sc)
  {
    Ends(Run(s, sc), from, o)
  }

  /** The end of a scan and the reference answer `o` agree. */
  predicate Ends(e: Scan, from: nat, o: Option<seq<seq<char>>>) {
    (o.None? <==> e.mode == InQuote) && (o.Some? ==> HoldsFrom(Final(e), e.argv, from, o.value))
  }

  /** The word `w`, then the words of `o`. */
  function Cons(w: seq<char>, o: Option<seq<seq<char>>>): Option<seq<seq<char>>> {
    match o
    case None => None
    case Some(ws) => Some([w] + ws)
  }

  /**
   * A word held below `pout` stays held to the end of the scan, so it goes in front of the
   * words after it.
   */
  lemma {:induction false} ConsAgrees(s: seq<char>, sc: Scan, k: nat, w: seq<char>, o: Option<seq<seq<char>>>)
    requires Inv(s, sc) && k < |sc.argv| && Held(sc.mem, sc.argv[k], w) && sc.argv[k] + |w| < sc.pout
    requires Agrees(s, sc, k + 1, o)
    ensures Agrees(s, sc, k, Cons(w, o))
  {
    var e := Run(s, sc);
    if o.Some? {
      FinalKeeps(e, sc.pout);
      HeldKept(sc.mem, Final(e), sc.argv[k], w, sc.pout);
      PrefixAt(e.argv, sc.argv, k);
      HoldsCons(Final(e), e.argv, k, w, o.value);
    }
  }

  /** Copying `c` into the open word extends it by `c`. */
  lemma {:induction false} OpenCopy(sc: Scan, q: nat, mode: Mode, cur: seq<char>, c: char)
    requires Open(sc, cur) && sc.pout < |sc.mem| && q < |sc.mem| && sc.mem[q] == c
    ensures Open(Copy(sc, q, mode), cur + [c])
  {
    CopiedByte(sc.mem, sc.argv[|sc.argv| - 1], sc.pout, q, cur, c);
  }

  /** White space inside a word, on any line: the word is closed with a NUL. */
  lemma {:induction false} StepWordSpace(s: seq<char>, sc: Scan)
    requires Inv(s, sc) && sc.mode == InWord && sc.p < |s| && IsSpace(s[sc.p])
    ensures Step(s, sc) == sc.(mode := Idle, p := sc.p + 1, pout := sc.pout + 1, mem := sc.mem[sc.pout := NUL])
  {
  }

  /** A double quote inside a word, on any line: a quoted span opens. */
  lemma {:induction false} StepWordQuote(s: seq<char>, sc: Scan)
    requires Inv(s, sc) && sc.mode == InWord && sc.p < |s| && s[sc.p] == '"'
    ensures Step(s, sc) == sc.(mode := InQuote, p := sc.p + 1)
  {
  }

  /**
   * Any other byte inside a word, on any line: the byte at `q` is copied, and the word
   * ends when the line does.
   */
  lemma {:induction false} StepWordCopy(s: seq<char>, sc: Scan, q: nat)
    requires Inv(s, sc) && sc.mode == InWord && sc.p < |s| && !IsSpace(s[sc.p]) && s[sc.p] != '"'
    requires q == if s[sc.p] == '\\' then sc.p + 1 else sc.p
    ensures q <= |s| && sc.mem[q] == InputAt(s, q)
    ensures Step(s, sc) == if q + 1 >= |s| then Copy(sc, q, InWord).(mode := Idle, mem := Copy(sc, q, InWord).mem[sc.pout + 1 := NUL])
                           else Copy(sc, q, InWord)
  {
  }

  /** Agreement carries back over one pass. */
  lemma {:induction false} AgreesBack(s: seq<char>, sc: Scan, from: nat, o: Option<seq<seq<char>>>,
                                      from': nat, o': Option<seq<seq<char>>>)
    requires Inv(s, sc) && sc.p < |s| && Agrees(s, Step(s, sc), from', o') && from == from' && o == o'
    ensures Agrees(s, sc, from, o)
  {
    RunOn(s, sc);
  }

  /** A closing quote, on any line. */
  lemma {:induction false} StepInQuote(s: seq<char>, sc: Scan)
    requires Inv(s, sc) && sc.mode == InQuote && sc.p < |s|
    ensures s[sc.p] == '"' ==> Step(s, sc) == sc.(mode := InWord, p := sc.p + 1)
  {
  }

  /** Any other byte inside quotes, on any line: the byte at `q` is copied. */
  lemma {:induction false} StepQuoteCopy(s: seq<char>, sc: Scan, q: nat)
    requires Inv(s, sc) && sc.mode == InQuote && sc.p < |s| && s[sc.p] != '"'
    requires q == if s[sc.p] == '\\' && sc.p + 1 < |s| && s[sc.p + 1] == '"' then sc.p + 1 else sc.p
    ensures q < |s| && sc.mem[q] == s[q] && Step(s, sc) == Copy(sc, q, InQuote)
  {
    assert sc.mem[sc.p + 1] == InputAt(s, sc.p + 1);
  }

  /** Scanning from `Idle` agrees with the reference on the rest of the line. */
  lemma {:induction false} IdleAgrees(s: seq<char>, sc: Scan)
    requires NUL !in s && Inv(s, sc) && sc.mode == Idle
    ensures Agrees(s, sc, |sc.argv|, Words(s, sc.p))
    decreases Measure(s, sc), 1
  {
    if sc.p >= |s| {
      RunOver(s, sc);
    } else if IsSpace(s[sc.p]) {
      IdleSpace(s, sc);
    } else {
      IdleOpens(s, sc);
    }
  }

  /** White space outside a word is passed over. */
  lemma {:induction false} IdleSpace(s: seq<char>, sc: Scan)
    requires NUL !in s && Inv(s, sc) && sc.mode == Idle && sc.p < |s| && IsSpace(s[sc.p])
    ensures Agrees(s, sc, |sc.argv|, Words(s, sc.p))
    decreases Measure(s, sc), 0
  {
    StepIdle(s, sc);
    var next := Step(s, sc);
    assert next.p == sc.p + 1 && |next.argv| == |sc.argv|;
    IdleAgrees(s, next);
    AgreesBack(s, sc, |sc.argv|, Words(s, sc.p), |next.argv|, Words(s, next.p));
  }

  /** Any other byte outside a word opens one at `pout`, with no bytes yet. */
  lemma {:induction false} IdleOpens(s: seq<char>, sc: Scan)
    requires NUL !in s && Inv(s, sc) && sc.mode == Idle && sc.p < |s| && !IsSpace(s[sc.p])
    ensures Agrees(s, sc, |sc.argv|, Words(s, sc.p))
    decreases Measure(s, sc), 0
  {
    StepIdle(s, sc);
    var next := Step(s, sc);
    assert next.p == sc.p && |next.argv| == |sc.argv| + 1 && next.argv[|sc.argv|] == sc.pout;
    assert sc.mem[sc.pout..sc.pout] == [];
    WordAgrees(s, next, []);
    AgreesBack(s, sc, |sc.argv|, Words(s, sc.p), |next.argv| - 1, WordThen(s, next.p, []));
  }

  /**
   * The current word begun at the last word pointer, whose bytes so far, `cur`, lie just
   * below `pout`.
   */
  predicate Open(sc: Scan, cur: seq<char>) {
    |sc.argv| > 0 && sc.argv[|sc.argv| - 1] + |cur| == sc.pout <= |sc.mem|
    && sc.mem[sc.argv[|sc.argv| - 1]..sc.pout] == cur
  }

  /** Scanning inside a word agrees with the reference: the word, completed, then the words after it. */
  lemma {:induction false} WordAgrees(s: seq<char>, sc: Scan, cur: seq<char>)
    requires NUL !in s && NUL !in cur && Inv(s, sc) && sc.mode == InWord && Open(sc, cur)
    ensures Agrees(s, sc, |sc.argv| - 1, WordThen(s, sc.p, cur))
    decreases Measure(s, sc), 1
  {
    if sc.p >= |s| {
      WordAtEnd(s, sc, cur);
    } else if IsSpace(s[sc.p]) {
      WordSpace(s, sc, cur);
    } else if s[sc.p] == '"' {
      WordOpensQuote(s, sc, cur);
    } else {
      WordByte(s, sc, cur);
    }
  }

  /** A double quote inside a word opens a quoted span of it. */
  lemma {:induction false} WordOpensQuote(s: seq<char>, sc: Scan, cur: seq<char>)
    requires NUL !in s && NUL !in cur && Inv(s, sc) && sc.mode == InWord && Open(sc, cur)
    requires sc.p < |s| && !IsSpace(s[sc.p]) && s[sc.p] == '"'
    ensures Agrees(s, sc, |sc.argv| - 1, WordThen(s, sc.p, cur))
    decreases Measure(s, sc), 0
  {
    StepWordQuote(s, sc);
    var next := Step(s, sc);
    assert next.p == sc.p + 1 && |next.argv| == |sc.argv|;
    QuoteAgrees(s, next, cur);
    WordThenQuote(s, sc.p, cur);
    AgreesBack(s, sc, |sc.argv| - 1, WordThen(s, sc.p, cur), |next.argv| - 1, QuoteThen(s, next.p, cur));
  }

  /** A double quote inside a word: the rest of the word is read inside quotes. */
  lemma {:induction false} WordThenQuote(s: seq<char>, i: nat, cur: seq<char>)
    requires i < |s| && s[i] == '"'
    ensures WordThen(s, i, cur) == QuoteThen(s, i + 1, cur)
  {
    assert WordRest(s, i) == QuoteRest(s, i + 1);
  }

  /** A word still open when the line ends: the repaired NUL closes it. */
  lemma {:induction false} WordAtEnd(s: seq<char>, sc: Scan, cur: seq<char>)
    requires Inv(s, sc) && sc.mode == InWord && Open(sc, cur) && sc.p >= |s|
    ensures Agrees(s, sc, |sc.argv| - 1, WordThen(s, sc.p, cur))
  {
    RunOver(s, sc);
    HeldAfterNul(sc.mem, sc.argv[|sc.argv| - 1], sc.pout, cur);
  }

  /** White space closes the word with a NUL; the scan goes on from `Idle`. */
  lemma {:induction false} WordSpace(s: seq<char>, sc: Scan, cur: seq<char>)
    requires NUL !in s && NUL !in cur && Inv(s, sc) && sc.mode == InWord && Open(sc, cur)
    requires sc.p < |s| && IsSpace(s[sc.p])
    ensures Agrees(s, sc, |sc.argv| - 1, WordThen(s, sc.p, cur))
    decreases Measure(s, sc), 0
  {
    StepWordSpace(s, sc);
    HeldAfterNul(sc.mem, sc.argv[|sc.argv| - 1], sc.pout, cur);
    ClosedAgrees(s, Step(s, sc), cur);
    WordThenSpace(s, sc.p, cur);
    RunOn(s, sc);
  }

  /** A word just closed below `pout`, then the scan from `Idle`. */
  lemma {:induction false} ClosedAgrees(s: seq<char>, sc: Scan, cur: seq<char>)
    requires NUL !in s && Inv(s, sc) && sc.mode == Idle && |sc.argv| > 0
    requires Held(sc.mem, sc.argv[|sc.argv| - 1], cur) && sc.argv[|sc.argv| - 1] + |cur| < sc.pout
    ensures Agrees(s, sc, |sc.argv| - 1, Cons(cur, Words(s, sc.p)))
    decreases Measure(s, sc), 2
  {
    IdleAgrees(s, sc);
    ConsAgrees(s, sc, |sc.argv| - 1, cur, Words(s, sc.p));
  }

  /** The repaired NUL is written at or above `pout`, so nothing below it changes. */
  lemma {:induction false} FinalKeeps(e: Scan, below: nat)
    requires below <= e.pout && below <= |e.mem|
    ensures |Final(e)| == |e.mem| && forall i :: 0 <= i < below ==> Final(e)[i] == e.mem[i]
  {
  }

  /** A byte, or the byte after a backslash, is copied into the word. */
  lemma {:induction false} WordByte(s: seq<char>, sc: Scan, cur: seq<char>)
    requires NUL !in s && NUL !in cur && Inv(s, sc) && sc.mode == InWord && Open(sc, cur)
    requires sc.p < |s| && !IsSpace(s[sc.p]) && s[sc.p] != '"'
    ensures Agrees(s, sc, |sc.argv| - 1, WordThen(s, sc.p, cur))
    decreases Measure(s, sc), 0
  {
    var q := if s[sc.p] == '\\' then sc.p + 1 else sc.p;
    if q == |s| {
      WordEndsInBackslash(s, sc, cur);
    } else {
      StepWordCopy(s, sc, q);
      var c := s[q];
      OpenCopy(sc, q, InWord, cur, c);
      WordThenPrepend(s, sc.p, q, cur, c);
      if q + 1 >= |s| {
        WordEndsInByte(s, sc, cur, q, c);
      } else {
        var next := Step(s, sc);
        assert next.mode == InWord && next.p == q + 1 && |next.argv| == |sc.argv|;
        WordAgrees(s, next, cur + [c]);
        AgreesBack(s, sc, |sc.argv| - 1, WordThen(s, sc.p, cur), |next.argv| - 1, WordThen(s, next.p, cur + [c]));
      }
    }
  }

  /** A backslash that is the line's last byte copies the NUL after it, which ends the word. */
  lemma {:induction false} WordEndsInBackslash(s: seq<char>, sc: Scan, cur: seq<char>)
    requires Inv(s, sc) && sc.mode == InWord && Open(sc, cur)
    requires sc.p + 1 == |s| && s[sc.p] == '\\'
    ensures Agrees(s, sc, |sc.argv| - 1, WordThen(s, sc.p, cur))
  {
    StepWordCopy(s, sc, |s|);
    RunOn(s, sc);
    var start := sc.argv[|sc.argv| - 1];
    var r := Copy(sc, |s|, InWord);
    var next := Step(s, sc);
    assert next.mem[start..sc.pout] == r.mem[start..sc.pout] == cur;
    assert Held(next.mem, start, cur);
    RunOver(s, next);
    assert WordRest(s, sc.p) == Some(([], |s| + 1));
    assert cur + [] == cur;
  }

  /** A byte copied as the line's last ends the word, with a NUL after it. */
  lemma {:induction false} WordEndsInByte(s: seq<char>, sc: Scan, cur: seq<char>, q: nat, c: char)
    requires Inv(s, sc) && sc.mode == InWord && Open(sc, cur)
    requires sc.p < |s| && !IsSpace(s[sc.p]) && s[sc.p] != '"'
    requires q == (if s[sc.p] == '\\' then sc.p + 1 else sc.p) && q + 1 == |s| && c == s[q]
    requires Open(Copy(sc, q, InWord), cur + [c])
    ensures Agrees(s, sc, |sc.argv| - 1, WordThen(s, q + 1, cur + [c]))
  {
    StepWordCopy(s, sc, q);
    RunOn(s, sc);
    var r := Copy(sc, q, InWord);
    HeldAfterNul(r.mem, sc.argv[|sc.argv| - 1], sc.pout + 1, cur + [c]);
    RunOver(s, Step(s, sc));
  }

  /** Copying `c` to `pout` extends the bytes of the open word by `c`. */
  lemma {:induction false} CopiedByte(mem: seq<char>, start: nat, pout: nat, q: nat, cur: seq<char>, c: char)
    requires start + |cur| == pout < |mem| && q < |mem| && mem[q] == c && mem[start..pout] == cur
    ensures mem[pout := mem[q]][start..pout + 1] == cur + [c]
  {
    var m := mem[pout := mem[q]];
    forall k | start <= k < pout + 1 ensures m[k] == (cur + [c])[k - start] {
      if k < pout {
        assert m[k] == mem[start..pout][k - start];
      }
    }
  }

  /** Reading a copied byte moves it from the rest of the word to the bytes so far. */
  lemma {:induction false} WordThenPrepend(s: seq<char>, p: nat, q: nat, cur: seq<char>, c: char)
    requires p < |s| && !IsSpace(s[p]) && s[p] != '"' && q == (if s[p] == '\\' then p + 1 else p) && q < |s| && c == s[q]
    ensures WordThen(s, p, cur) == WordThen(s, q + 1, cur + [c])
  {
    assert WordRest(s, p) == Prepend([c], WordRest(s, q + 1));
    if q + 1 == |s| {
      assert WordRest(s, q + 1) == Some(([], |s|));
      assert [c] + [] == [c];
      assert WordRest(s, p) == Some(([c], |s|));
      assert Words(s, |s|) == Some([]);
      assert [cur + [c]] + [] == [cur + [c]];
    } else {
      PrependThen(s, q + 1, cur, c);
    }
  }

  /** The bytes of a word may be split anywhere between `cur` and the rest. */
  lemma {:induction false} PrependThen(s: seq<char>, i: nat, cur: seq<char>, c: char)
    requires i < |s|
    ensures (match Prepend([c], WordRest(s, i))
             case None => None
             case Some((w, j)) => match Words(s, j) case None => None case Some(ws) => Some([cur + w] + ws))
            == WordThen(s, i, cur + [c])
  {
    match WordRest(s, i)
    case None =>
    case Some((w, j)) =>
      assert cur + ([c] + w) == (cur + [c]) + w;
  }

  /** The same inside quotes. */
  lemma {:induction false} PrependQuote(s: seq<char>, i: nat, cur: seq<char>, c: char)
    requires i <= |s| + 1
    ensures (match Prepend([c], QuoteRest(s, i))
             case None => None
             case Some((w, j)) => match Words(s, j) case None => None case Some(ws) => Some([cur + w] + ws))
            == QuoteThen(s, i, cur + [c])
  {
    match QuoteRest(s, i)
    case None =>
    case Some((w, j)) =>
      assert cur + ([c] + w) == (cur + [c]) + w;
  }

  /** White space after the bytes `cur` ends the word there. */
  lemma {:induction false} WordThenSpace(s: seq<char>, p: nat, cur: seq<char>)
    requires p < |s| && IsSpace(s[p])
    ensures WordThen(s, p, cur) == Cons(cur, Words(s, p + 1))
  {
    assert WordRest(s, p) == Some(([], p + 1));
    assert cur + [] == cur;
  }

  /** A closing quote goes back to the word. */
  lemma {:induction false} QuoteThenClose(s: seq<char>, p: nat, cur: seq<char>)
    requires p < |s| && s[p] == '"'
    ensures QuoteThen(s, p, cur) == WordThen(s, p + 1, cur)
  {
    assert QuoteRest(s, p) == WordRest(s, p + 1);
    if p + 1 == |s| {
      assert WordRest(s, p + 1) == Some(([], |s|));
      assert Words(s, |s|) == Some([]);
      assert cur + [] == cur;
      assert [cur] + [] == [cur];
    }
  }

  /** Scanning inside quotes agrees with the reference. */
  lemma {:induction false} QuoteAgrees(s: seq<char>, sc: Scan, cur: seq<char>)
    requires NUL !in s && NUL !in cur && Inv(s, sc) && sc.mode == InQuote && Open(sc, cur)
    ensures Agrees(s, sc, |sc.argv| - 1, QuoteThen(s, sc.p, cur))
    decreases Measure(s, sc), 2
  {
    if sc.p >= |s| {
      RunOver(s, sc);
    } else if s[sc.p] == '"' {
      QuoteCloses(s, sc, cur);
    } else {
      QuoteByte(s, sc, cur);
    }
  }

  /** The closing quote goes back to the word. */
  lemma {:induction false} QuoteCloses(s: seq<char>, sc: Scan, cur: seq<char>)
    requires NUL !in s && NUL !in cur && Inv(s, sc) && sc.mode == InQuote && Open(sc, cur)
    requires sc.p < |s| && s[sc.p] == '"'
    ensures Agrees(s, sc, |sc.argv| - 1, QuoteThen(s, sc.p, cur))
    decreases Measure(s, sc), 1
  {
    StepInQuote(s, sc);
    var next := Step(s, sc);
    assert next.p == sc.p + 1 && |next.argv| == |sc.argv|;
    WordAgrees(s, next, cur);
    QuoteThenClose(s, sc.p, cur);
    AgreesBack(s, sc, |sc.argv| - 1, QuoteThen(s, sc.p, cur), |next.argv| - 1, WordThen(s, next.p, cur));
  }

  /** A byte inside quotes, or the quote after a backslash, is copied into the word. */
  lemma {:induction false} QuoteByte(s: seq<char>, sc: Scan, cur: seq<char>)
    requires NUL !in s && NUL !in cur && Inv(s, sc) && sc.mode == InQuote && Open(sc, cur)
    requires sc.p < |s| && s[sc.p] != '"'
    ensures Agrees(s, sc, |sc.argv| - 1, QuoteThen(s, sc.p, cur))
    decreases Measure(s, sc), 1
  {
    var q := if s[sc.p] == '\\' && sc.p + 1 < |s| && s[sc.p + 1] == '"' then sc.p + 1 else sc.p;
    QuoteCopiedAgrees(s, sc, cur, q);
    QuoteCopiedBack(s, sc, cur, q);
  }

  /** After the copy, the scan agrees with the reference read on from the byte after `q`. */
  lemma {:induction false} QuoteCopiedAgrees(s: seq<char>, sc: Scan, cur: seq<char>, q: nat)
    requires NUL !in s && NUL !in cur && Inv(s, sc) && sc.mode == InQuote && Open(sc, cur)
    requires sc.p < |s| && s[sc.p] != '"'
    requires q == if s[sc.p] == '\\' && sc.p + 1 < |s| && s[sc.p + 1] == '"' then sc.p + 1 else sc.p
    ensures q < |s| && Agrees(s, Step(s, sc), |Step(s, sc).argv| - 1, QuoteThen(s, Step(s, sc).p, cur + [s[q]]))
    decreases Measure(s, sc), 0
  {
    StepQuoteCopy(s, sc, q);
    OpenCopy(sc, q, InQuote, cur, s[q]);
    QuoteAgrees(s, Step(s, sc), cur + [s[q]]);
  }

  /** What the scan after a copy inside quotes agrees with, the scan before it agrees with. */
  lemma {:induction false} QuoteCopiedBack(s: seq<char>, sc: Scan, cur: seq<char>, q: nat)
    requires Inv(s, sc) && sc.mode == InQuote && sc.p < |s| && s[sc.p] != '"' && |sc.argv| > 0
    requires q == if s[sc.p] == '\\' && sc.p + 1 < |s| && s[sc.p + 1] == '"' then sc.p + 1 else sc.p
    requires q < |s| && Agrees(s, Step(s, sc), |Step(s, sc).argv| - 1, QuoteThen(s, Step(s, sc).p, cur + [s[q]]))
    ensures Agrees(s, sc, |sc.argv| - 1, QuoteThen(s, sc.p, cur))
  {
    StepQuoteCopy(s, sc, q);
    var next := Step(s, sc);
    assert next.p == q + 1 && |next.argv| == |sc.argv|;
    QuoteThenCopy(s, sc.p, q, cur);
    AgreesBack(s, sc, |sc.argv| - 1, QuoteThen(s, sc.p, cur), |next.argv| - 1, QuoteThen(s, next.p, cur + [s[q]]));
  }

  /** Reading a byte inside quotes moves it from the rest of the word to the bytes so far. */
  lemma {:induction false} QuoteThenCopy(s: seq<char>, p: nat, q: nat, cur: seq<char>)
    requires p < |s| && s[p] != '"'
    requires q == if s[p] == '\\' && p + 1 < |s| && s[p + 1] == '"' then p + 1 else p
    ensures q < |s| && QuoteThen(s, p, cur) == QuoteThen(s, q + 1, cur + [s[q]])
  {
    assert QuoteRest(s, p) == Prepend([s[q]], QuoteRest(s, q + 1));
    PrependQuote(s, q + 1, cur, s[q]);
  }

  /**
   * Repaired, `tokenize_command_line` splits every line as the reference does: the same
   * words, and a refusal exactly when the line ends inside quotes.
   */
  lemma {:induction false} TokenizeIsWords(s: seq<char>)
    requires NUL !in s
    ensures Tokenize(Repaired, Some(s)) == Words(s, 0)
  {
    if |s| > 0 {
      var e := Run(s, Start(s));
      IdleAgrees(s, Start(s));
      if e.mode != InQuote {
        var ws := Words(s, 0).value;
        TokenizeOfScan(Repaired, s, e);
        var ts := Texts(Final(e), e.argv);
        forall k | 0 <= k < |ws| ensures ts[k] == ws[k] {
          HeldText(Final(e), e.argv[k], ws[k]);
        }
        assert ts == ws;
      }
    }
  }

  /** A scan can end inside a word only at a closing quote that is the line's last byte. */
  lemma {:induction false} EndsInWord(s: seq<char>, sc: Scan)
    requires Inv(s, sc)
    ensures Run(s, sc).mode == InWord ==> (sc.mode == InWord && sc.p >= |s|) || (|s| > 0 && s[|s| - 1] == '"')
    decreases Measure(s, sc)
  {
    if sc.p < |s| {
      RunOn(s, sc);
      var next := Step(s, sc);
      EndsInWord(s, next);
      if next.mode == InWord && next.p >= |s| {
        if sc.mode == InWord {
          if IsSpace(s[sc.p]) {
            StepWordSpace(s, sc);
          } else if s[sc.p] != '"' {
            StepWordCopy(s, sc, if s[sc.p] == '\\' then sc.p + 1 else sc.p);
          }
        } else if sc.mode == InQuote {
          StepInQuote(s, sc);
        }
      }
    }
  }

  /**
   * As written, a line that does not end with a double quote is split as repaired, so as
   * the reference does.
   */
  lemma {:induction false} AsWrittenIsWords(s: seq<char>)
    requires NUL !in s && (|s| == 0 || s[|s| - 1] != '"')
    ensures Tokenize(AsWritten, Some(s)) == Words(s, 0)
  {
    TokenizeIsWords(s);
    if |s| > 0 {
      EndsInWord(s, Start(s));
    }
  }

  /** On a plain line a word runs to the first white space, which is passed over. */
  lemma {:induction false} PlainWordRest(s: seq<char>, i: nat)
    requires Plain(s) && i <= |s|
    ensures WordRest(s, i) == Some((s[i..RunEnd(s, i)], if RunEnd(s, i) < |s| then RunEnd(s, i) + 1 else |s|))
    decreases |s| - i
  {
    if i < |s| && !IsSpace(s[i]) {
      PlainWordRest(s, i + 1);
      assert s[i] != '"' && s[i] != '\\' && RunEnd(s, i) == RunEnd(s, i + 1);
      assert WordRest(s, i) == Prepend([s[i]], WordRest(s, i + 1));
      assert [s[i]] + s[i + 1..RunEnd(s, i)] == s[i..RunEnd(s, i)];
    } else {
      assert RunEnd(s, i) == i && s[i..i] == [];
    }
  }

  /** On a plain line the reference splits into the maximal runs of non-space bytes. */
  lemma {:induction false} PlainWords(s: seq<char>, i: nat)
    requires Plain(s) && i <= |s|
    ensures Words(s, i) == Some(WordsFrom(s, i))
    decreases |s| - i
  {
    if i < |s| {
      if IsSpace(s[i]) {
        PlainWords(s, i + 1);
        assert SkipSpaces(s, i) == SkipSpaces(s, i + 1);
      } else {
        var b := RunEnd(s, i);
        var j := if b < |s| then b + 1 else |s|;
        PlainWordRest(s, i);
        PlainWords(s, j);
        WordsSplit(s, i);
        if b < |s| {
          assert SkipSpaces(s, b) == SkipSpaces(s, b + 1);
        }
        assert WordsFrom(s, b) == WordsFrom(s, j);
        assert [] + s[i..b] == s[i..b];
      }
    }
  }

  // ----- quotes and backslashes, on every line of a given shape -----

  /** Bytes with no meaning to the scanner. */
  predicate OrdinaryText(u: seq<char>) {
    forall k :: 0 <= k < |u| ==> Ordinary(u[k])
  }

  lemma {:induction false} PrependPrepend(u: seq<char>, v: seq<char>, o: Option<(seq<char>, nat)>)
    ensures Prepend(u, Prepend(v, o)) == Prepend(u + v, o)
  {
    match o
    case None =>
    case Some((w, j)) =>
      assert u + (v + w) == (u + v) + w;
  }

  lemma {:induction false} PrependNothing(o: Option<(seq<char>, nat)>)
    ensures Prepend([], o) == o
  {
    match o
    case None =>
    case Some((w, j)) =>
      assert [] + w == w;
  }

  lemma {:induction false} ConsSlice(s: seq<char>, i: nat, j: nat)
    requires i < j <= |s|
    ensures [s[i]] + s[i + 1..j] == s[i..j]
  {
    assert forall k :: 0 <= k < j - i ==> ([s[i]] + s[i + 1..j])[k] == s[i..j][k];
  }

  /** Ordinary bytes from `i` to `j` go into the word as they are. */
  lemma {:induction false} WordRestOrdinary(s: seq<char>, i: nat, j: nat)
    requires i <= j <= |s| && forall k :: i <= k < j ==> Ordinary(s[k])
    ensures WordRest(s, i) == Prepend(s[i..j], WordRest(s, j))
    decreases j - i
  {
    if i < j {
      WordRestOrdinary(s, i + 1, j);
      assert WordRest(s, i) == Prepend([s[i]], WordRest(s, i + 1));
      PrependPrepend([s[i]], s[i + 1..j], WordRest(s, j));
      ConsSlice(s, i, j);
    } else {
      assert s[i..j] == [];
      PrependNothing(WordRest(s, j));
    }
  }

  /** The ordinary text `u`, standing at `i`, goes into the word as it is. */
  lemma {:induction false} WordRestOver(s: seq<char>, i: nat, u: seq<char>)
    requires i + |u| <= |s| && s[i..i + |u|] == u && OrdinaryText(u)
    ensures WordRest(s, i) == Prepend(u, WordRest(s, i + |u|))
  {
    forall k | i <= k < i + |u| ensures Ordinary(s[k]) {
      assert s[k] == s[i..i + |u|][k - i];
    }
    WordRestOrdinary(s, i, i + |u|);
  }

  lemma {:induction false} OrdinaryTextFacts(u: seq<char>)
    requires OrdinaryText(u)
    ensures NUL !in u && '"' !in u && '\\' !in u
    ensures |u| > 0 ==> !IsSpace(u[0]) && u[|u| - 1] != '"'
  {
  }

  /** A line read as one word to its end is that one word. */
  lemma {:induction false} OneWord(s: seq<char>, w: seq<char>)
    requires |s| > 0 && !IsSpace(s[0]) && WordRest(s, 0) == Some((w, |s|))
    ensures Words(s, 0) == Some([w])
  {
    assert Words(s, |s|) == Some([]);
    assert [] + w == w;
    assert [w] + [] == [w];
  }

  /** The reference on `a\cb`: the one word `acb`. */
  lemma {:induction false} WordsEscape(a: seq<char>, c: char, b: seq<char>)
    requires OrdinaryText(a) && OrdinaryText(b)
    ensures Words(a + ['\\', c] + b, 0) == Some([a + [c] + b])
  {
    var s := a + ['\\', c] + b;
    var n := |a|;
    assert s[0..n] == a && s[n] == '\\' && s[n + 1] == c && s[n + 2..n + 2 + |b|] == b;
    OrdinaryTextFacts(a);
    WordRestOver(s, 0, a);
    WordRestOver(s, n + 2, b);
    var end := |s|;
    assert WordRest(s, end) == Some(([], end));
    assert b + [] == b;
    assert WordRest(s, n + 2) == Some((b, end));
    assert WordRest(s, n) == Some(([c] + b, end));
    assert WordRest(s, 0) == Some((a + ([c] + b), end));
    assert a + ([c] + b) == a + [c] + b;
    OneWord(s, a + [c] + b);
  }

  /**
   * A backslash outside quotes puts the byte after it, white space or a quote included,
   * into the word: `a\cb` is the one word `acb`.
   */
  lemma {:induction false} TokenizeEscape(p: Policy, a: seq<char>, c: char, b: seq<char>)
    requires OrdinaryText(a) && OrdinaryText(b) && c != NUL
    requires p == AsWritten ==> |b| > 0 || c != '"'
    ensures Tokenize(p, Some(a + ['\\', c] + b)) == Some([a + [c] + b])
  {
    var s := a + ['\\', c] + b;
    OrdinaryTextFacts(a);
    OrdinaryTextFacts(b);
    assert NUL !in s;
    WordsEscape(a, c, b);
    if p == Repaired {
      TokenizeIsWords(s);
    } else {
      assert s[|s| - 1] == if |b| > 0 then b[|b| - 1] else c;
      AsWrittenIsWords(s);
    }
  }

  /** Bytes kept as they are inside quotes: anything but a quote, a backslash or NUL. */
  predicate QuotedText(u: seq<char>) {
    forall k :: 0 <= k < |u| ==> u[k] != '"' && u[k] != '\\' && u[k] != NUL
  }

  /** Inside quotes, bytes from `i` to `j` that are not quotes or backslashes go into the word. */
  lemma {:induction false} QuoteRestPlain(s: seq<char>, i: nat, j: nat)
    requires i <= j < |s| && forall k :: i <= k < j ==> s[k] != '"' && s[k] != '\\' && s[k] != NUL
    ensures QuoteRest(s, i) == Prepend(s[i..j], QuoteRest(s, j))
    decreases j - i
  {
    if i < j {
      QuoteRestPlain(s, i + 1, j);
      assert QuoteRest(s, i) == Prepend([s[i]], QuoteRest(s, i + 1));
      PrependPrepend([s[i]], s[i + 1..j], QuoteRest(s, j));
      ConsSlice(s, i, j);
    } else {
      assert s[i..j] == [];
      PrependNothing(QuoteRest(s, j));
    }
  }

  /** The quoted text `u`, standing at `i` inside quotes, goes into the word as it is. */
  lemma {:induction false} QuoteRestOver(s: seq<char>, i: nat, u: seq<char>)
    requires i + |u| < |s| && s[i..i + |u|] == u && QuotedText(u)
    ensures QuoteRest(s, i) == Prepend(u, QuoteRest(s, i + |u|))
  {
    forall k | i <= k < i + |u| ensures s[k] != '"' && s[k] != '\\' && s[k] != NUL {
      assert s[k] == s[i..i + |u|][k - i];
    }
    QuoteRestPlain(s, i, i + |u|);
  }

  lemma {:induction false} QuotedPieces(a: seq<char>, e: seq<char>, b: seq<char>)
    ensures var s := a + ['"'] + e + ['"'] + b;
      var m := |a| + 1 + |e|;
      s[0..|a|] == a && s[|a|] == '"' && s[|a| + 1..m] == e && s[m] == '"' && s[m + 1..m + 1 + |b|] == b
  {
    var s := a + ['"'] + e + ['"'] + b;
    var m := |a| + 1 + |e|;
    assert s == (a + ['"']) + (e + (['"'] + b));
    assert s[|a| + 1..] == e + (['"'] + b);
    assert s[|a| + 1..m] == s[|a| + 1..][..|e|];
    assert s[m..] == ['"'] + b;
    assert s[m + 1..m + 1 + |b|] == s[m..][1..];
  }

  /** The reference on a line laid out as `a"q"b`: the one word `aqb`. */
  lemma {:induction false} WordsQuotedAt(s: seq<char>, a: seq<char>, q: seq<char>, b: seq<char>)
    requires OrdinaryText(a) && OrdinaryText(b) && QuotedText(q)
    requires |s| == |a| + 1 + |q| + 1 + |b|
    requires s[0..|a|] == a && s[|a|] == '"' && s[|a| + 1..|a| + 1 + |q|] == q
    requires s[|a| + 1 + |q|] == '"' && s[|a| + 2 + |q|..] == b
    ensures Words(s, 0) == Some([a + q + b])
  {
    var n := |a|;
    var m := n + 1 + |q|;
    var end := |s|;
    assert s[m + 1..m + 1 + |b|] == b;
    WordRestOver(s, m + 1, b);
    assert WordRest(s, end) == Some(([], end));
    assert b + [] == b;
    assert QuoteRest(s, m) == Some((b, end));
    QuoteRestOver(s, n + 1, q);
    assert WordRest(s, n) == Some((q + b, end));
    WordRestOver(s, 0, a);
    assert WordRest(s, 0) == Some((a + (q + b), end));
    OrdinaryTextFacts(a);
    if |a| > 0 {
      assert s[0] == s[0..|a|][0] == a[0];
    }
    assert !IsSpace(s[0]);
    OneWord(s, a + (q + b));
    assert a + (q + b) == a + q + b;
  }

  /** The reference on `a"q"b`: the one word `aqb`. */
  lemma {:induction false} WordsQuoted(a: seq<char>, q: seq<char>, b: seq<char>)
    requires OrdinaryText(a) && OrdinaryText(b) && QuotedText(q)
    ensures Words(a + ['"'] + q + ['"'] + b, 0) == Some([a + q + b])
  {
    var s := a + ['"'] + q + ['"'] + b;
    QuotedPieces(a, q, b);
    assert s[|a| + 2 + |q|..] == s[|a| + 2 + |q|..|a| + 2 + |q| + |b|];
    WordsQuotedAt(s, a, q, b);
  }

  /**
   * Inside quotes white space is kept: `a"q"b` is the one word `aqb`. As written, `b` must
   * not be empty (see the finding on a closing quote at the end of the line).
   */
  lemma {:induction false} TokenizeQuoted(p: Policy, a: seq<char>, q: seq<char>, b: seq<char>)
    requires OrdinaryText(a) && OrdinaryText(b) && QuotedText(q)
    requires p == AsWritten ==> |b| > 0
    ensures Tokenize(p, Some(a + ['"'] + q + ['"'] + b)) == Some([a + q + b])
  {
    var s := a + ['"'] + q + ['"'] + b;
    OrdinaryTextFacts(a);
    OrdinaryTextFacts(b);
    assert NUL !in q;
    assert NUL !in s;
    WordsQuoted(a, q, b);
    if p == Repaired {
      TokenizeIsWords(s);
    } else {
      assert s[|s| - 1] == b[|b| - 1];
      AsWrittenIsWords(s);
    }
  }

  /** Inside quotes that are never closed, the line runs out. */
  lemma {:induction false} QuoteRestUnclosed(s: seq<char>, i: nat)
    requires i <= |s| + 1 && forall k :: i <= k < |s| ==> s[k] != '"'
    ensures QuoteRest(s, i) == None
    decreases |s| + 1 - i
  {
    if i < |s| {
      QuoteRestUnclosed(s, i + 1);
    }
  }

  /** A word of plain bytes that runs into a quote never closed: no resume index past the quote. */
  lemma {:induction false} WordRestBeforeQuote(s: seq<char>, i: nat, n: nat)
    requires i <= n < |s| && s[n] == '"' && QuoteRest(s, n + 1) == None
    requires forall k :: i <= k < n ==> s[k] != '"' && s[k] != '\\'
    ensures WordRest(s, i).Some? ==> WordRest(s, i).value.1 <= n
    decreases n - i
  {
    if i < n && !IsSpace(s[i]) {
      WordRestBeforeQuote(s, i + 1, n);
    }
  }

  /** The words up to a quote never closed: the reference refuses. */
  lemma {:induction false} WordsBeforeQuote(s: seq<char>, i: nat, n: nat)
    requires i <= n < |s| && s[n] == '"' && QuoteRest(s, n + 1) == None
    requires forall k :: i <= k < n ==> s[k] != '"' && s[k] != '\\'
    ensures Words(s, i) == None
    decreases n - i
  {
    if i < n {
      if IsSpace(s[i]) {
        WordsBeforeQuote(s, i + 1, n);
      } else {
        WordRestBeforeQuote(s, i, n);
        match WordRest(s, i)
        case None =>
        case Some((w, j)) =>
          WordsBeforeQuote(s, j, n);
      }
    }
  }

  /**
   * A line that opens a quote and never closes it is refused, whatever words came before:
   * `a"q` with no quote or backslash in `a` and no quote in `q`.
   */
  lemma {:induction false} TokenizeUnterminated(p: Policy, a: seq<char>, q: seq<char>)
    requires Plain(a) && NUL !in q && '"' !in q
    ensures Tokenize(p, Some(a + ['"'] + q)) == None
  {
    var s := a + ['"'] + q;
    var n := |a|;
    assert s[n] == '"';
    assert NUL !in s by {
      forall k | 0 <= k < |s| ensures s[k] != NUL {
        if k < n { assert s[k] == a[k]; } else if k > n { assert s[k] == q[k - n - 1]; }
      }
    }
    assert forall k :: 0 <= k < n ==> s[k] != '"' && s[k] != '\\' by {
      forall k | 0 <= k < n ensures s[k] != '"' && s[k] != '\\' { assert s[k] == a[k]; }
    }
    assert forall k :: n + 1 <= k < |s| ==> s[k] != '"' by {
      forall k | n + 1 <= k < |s| ensures s[k] != '"' { assert s[k] == q[k - n - 1]; }
    }
    QuoteRestUnclosed(s, n + 1);
    WordsBeforeQuote(s, 0, n);
    TokenizeRefuses(p, s);
  }

  /** Either way, a line is refused exactly when the reference ends inside quotes. */
  lemma {:induction false} TokenizeRefuses(p: Policy, s: seq<char>)
    requires NUL !in s
    ensures Tokenize(p, Some(s)).None? <==> Words(s, 0).None?
  {
    TokenizeIsWords(s);
  }
}
