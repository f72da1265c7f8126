/** The string functions the cron parser calls (`strings.Fields`, `Split`, `TrimSpace`, `SplitN`,
    `strconv.Atoi`), and the printing that undoes them. */
module CronText {
  import opened Int64
  import opened Options

  // ---------------------------------------------------------------- numbers

  predicate IsDigit(c: char) { '0' <= c <= '9' }

  predicate AllDigits(s: string) { forall i | 0 <= i < |s| :: IsDigit(s[i]) }

  function DigitOf(d: int): char
    requires 0 <= d <= 9
  {
    '0' + d as char
  }

  function DigitsValue(s: string): (v: int)
    requires AllDigits(s)
    ensures v >= 0
  {
    if s == [] then 0
    else
      var n := |s| - 1;
      assert IsDigit(s[n]);
      10 * DigitsValue(s[..n]) + (s[n] as int - '0' as int)
  }

  /** `strconv.Atoi`: an optional sign and decimal digits, within 64 bits. */
  function Atoi(s: string): Option<int> {
    var signed := s != [] && (s[0] == '-' || s[0] == '+');
    var digits := if signed then s[1..] else s;
    if digits == [] || !AllDigits(digits) then None
    else
      var v := if signed && s[0] == '-' then -DigitsValue(digits) else DigitsValue(digits);
      if MIN_INT <= v <= MAX_INT then Some(v) else None
  }

  function Digits(n: nat): (s: string)
    ensures s != [] && AllDigits(s)
  {
    if n < 10 then [DigitOf(n)] else Digits(n / 10) + [DigitOf(n % 10)]
  }

  function Itoa(v: int): string {
    if v < 0 then "-" + Digits(-v) else Digits(v)
  }

  lemma {:induction false} DigitsRead(n: nat)
    ensures DigitsValue(Digits(n)) == n
  {
    if n < 10 {
      assert [DigitOf(n)][..0] == [];
    } else {
      DigitsRead(n / 10);
      var rest := Digits(n / 10);
      assert Digits(n)[..|rest|] == rest;
    }
  }

  lemma AtoiItoa(v: int)
    requires MIN_INT <= v <= MAX_INT
    ensures Atoi(Itoa(v)) == Some(v)
  {
    hide DigitsValue, Digits;
    if v < 0 {
      DigitsRead(-v);
      assert Itoa(v)[1..] == Digits(-v);
    } else {
      DigitsRead(v);
      assert IsDigit(Digits(v)[0]);
    }
  }

  // ---------------------------------------------------------------- every text of a number

  datatype Sign = NoSign | Plus | Minus

  function SignText(sign: Sign): string {
    match sign case NoSign => "" case Plus => "+" case Minus => "-"
  }

  function Signed(sign: Sign, n: int): int { if sign.Minus? then -n else n }

  function Zeros(k: nat): string { seq(k, _ => '0') }

  /** A number written with a sign and leading zeros. */
  function Numeral(sign: Sign, zeros: nat, n: nat): string { SignText(sign) + Zeros(zeros) + Digits(n) }

  lemma ValueStep(s: string, c: char)
    requires IsDigit(c) && AllDigits(s)
    ensures DigitsValue(s + [c]) == 10 * DigitsValue(s) + (c as int - '0' as int)
  {
    assert (s + [c])[..|s|] == s;
  }

  lemma {:induction false} ZerosRead(k: nat)
    ensures DigitsValue(Zeros(k)) == 0
  {
    if k > 0 {
      ZerosRead(k - 1);
      assert Zeros(k) == Zeros(k - 1) + ['0'];
      ValueStep(Zeros(k - 1), '0');
    }
  }

  lemma {:induction false} PaddedRead(k: nat, n: nat)
    ensures DigitsValue(Zeros(k) + Digits(n)) == n
  {
    hide DigitsValue;
    if n < 10 {
      ZerosRead(k);
      ValueStep(Zeros(k), DigitOf(n));
    } else {
      PaddedRead(k, n / 10);
      assert Zeros(k) + Digits(n) == Zeros(k) + Digits(n / 10) + [DigitOf(n % 10)];
      ValueStep(Zeros(k) + Digits(n / 10), DigitOf(n % 10));
    }
  }

  /** Digits are leading zeros and the digits of their value. */
  lemma {:induction false} DigitsPadded(s: string) returns (k: nat)
    requires s != [] && AllDigits(s)
    ensures s == Zeros(k) + Digits(DigitsValue(s))
  {
    hide DigitsValue;
    var n := |s| - 1;
    var rest, c := s[..n], s[n];
    assert s == rest + [c] && IsDigit(c);
    ValueStep(rest, c);
    assert DigitOf(c as int - '0' as int) == c;
    if rest == [] {
      ZerosRead(0);
      assert Zeros(0) == rest;
      k := 0;
    } else {
      k := DigitsPadded(rest);
      if DigitsValue(rest) == 0 {
        assert Zeros(k + 1) == Zeros(k) + ['0'];
        k := k + 1;
      }
    }
  }

  lemma AtoiSigned(sign: Sign, digits: string)
    requires digits != [] && AllDigits(digits)
    ensures var v := Signed(sign, DigitsValue(digits));
            Atoi(SignText(sign) + digits) == if MIN_INT <= v <= MAX_INT then Some(v) else None
  {
    hide DigitsValue;
    var s := SignText(sign) + digits;
    if sign.NoSign? { assert s == digits && IsDigit(digits[0]); } else { assert s[1..] == digits; }
  }

  lemma AtoiForm(s: string) returns (sign: Sign, digits: string)
    requires Atoi(s).Some?
    ensures s == SignText(sign) + digits && digits != [] && AllDigits(digits)
  {
    hide DigitsValue;
    var signed := s != [] && (s[0] == '-' || s[0] == '+');
    digits := if signed then s[1..] else s;
    sign := if !signed then NoSign else if s[0] == '-' then Minus else Plus;
  }

  /** `Atoi` reads exactly the numbers of 64 bits, with or without a sign and leading zeros. */
  lemma AtoiIff(s: string, v: int)
    ensures Atoi(s) == Some(v) <==>
            MIN_INT <= v <= MAX_INT && exists sign, k: nat, n: nat :: s == Numeral(sign, k, n) && v == Signed(sign, n)
  {
    hide Atoi, DigitsValue, Digits;
    if Atoi(s) == Some(v) {
      var sign, digits := AtoiForm(s);
      AtoiSigned(sign, digits);
      var k := DigitsPadded(digits);
      assert s == Numeral(sign, k, DigitsValue(digits));
    }
    forall sign, k: nat, n: nat | s == Numeral(sign, k, n) && v == Signed(sign, n) && MIN_INT <= v <= MAX_INT
      ensures Atoi(s) == Some(v)
    {
      PaddedRead(k, n);
      AtoiSigned(sign, Zeros(k) + Digits(n));
      assert s == SignText(sign) + (Zeros(k) + Digits(n));
    }
  }

  lemma AtoiPlain(s: string)
    requires Atoi(s).Some?
    ensures s != "*" && '/' !in s
  {
    hide DigitsValue, Atoi;
    var sign, digits := AtoiForm(s);
    assert "*"[0] == '*';
  }

  /** A printed number is made of digits and a sign. */
  lemma ItoaPlain(v: int)
    ensures Itoa(v) != [] && forall i | 0 <= i < |Itoa(v)| :: IsDigit(Itoa(v)[i]) || Itoa(v)[i] == '-'
  {
  }

  // ---------------------------------------------------------------- spaces

  /** `unicode.IsSpace`. */
  predicate IsSpace(c: char): (r: bool)
    ensures c <= '\U{7F}' ==> (r <==> c in " \t\n\U{B}\U{C}\r")
  {
    || '\U{9}' <= c <= '\U{D}' || c == ' ' || c == '\U{85}' || c == '\U{A0}' || c == '\U{1680}'
    || '\U{2000}' <= c <= '\U{200A}' || c == '\U{2028}' || c == '\U{2029}' || c == '\U{202F}'
    || c == '\U{205F}' || c == '\U{3000}'
  }

  predicate Solid(s: string) { forall i | 0 <= i < |s| :: !IsSpace(s[i]) }

  function TrimLeft(s: string): string {
    if s != [] && IsSpace(s[0]) then TrimLeft(s[1..]) else s
  }

  function TrimRight(s: string): string {
    if s != [] && IsSpace(s[|s| - 1]) then TrimRight(s[..|s| - 1]) else s
  }

  function TrimSpace(s: string): string { TrimRight(TrimLeft(s)) }

  /** The words of `s` read so far, with the word in progress. */
  function FieldsFrom(word: string, s: string): seq<string>
    decreases |s|
  {
    if s == [] then (if word == [] then [] else [word])
    else if IsSpace(s[0]) then (if word == [] then [] else [word]) + FieldsFrom([], s[1..])
    else FieldsFrom(word + [s[0]], s[1..])
  }

  function Fields(s: string): seq<string> { FieldsFrom([], s) }

  lemma {:induction false} FieldsOfWord(word: string, w: string, rest: string)
    requires Solid(w)
    ensures FieldsFrom(word, w + rest) == FieldsFrom(word + w, rest)
    decreases |w|
  {
    if w == [] {
      assert word + w == word && w + rest == rest;
    } else {
      assert (w + rest)[0] == w[0] && (w + rest)[1..] == w[1..] + rest;
      FieldsOfWord(word + [w[0]], w[1..], rest);
      assert word + [w[0]] + w[1..] == word + w;
    }
  }

  predicate Blank(s: string) { forall i | 0 <= i < |s| :: IsSpace(s[i]) }

  /** The words with gaps before, between and after them. */
  function Spaced(gaps: seq<string>, words: seq<string>): string
    requires |gaps| == |words| + 1
  {
    if words == [] then gaps[0] else gaps[0] + words[0] + Spaced(gaps[1..], words[1..])
  }

  ghost predicate Gaps(gaps: seq<string>) {
    (forall i | 0 <= i < |gaps| :: Blank(gaps[i])) && forall i | 1 <= i < |gaps| - 1 :: gaps[i] != []
  }

  lemma {:induction false} FieldsOfGap(gap: string, rest: string)
    requires Blank(gap)
    ensures FieldsFrom([], gap + rest) == FieldsFrom([], rest)
    decreases |gap|
  {
    if gap == [] {
      assert gap + rest == rest;
    } else {
      assert (gap + rest)[0] == gap[0] && (gap + rest)[1..] == gap[1..] + rest;
      FieldsOfGap(gap[1..], rest);
    }
  }

  lemma WordEnds(w: string, gap: string, rest: string)
    requires w != [] && Blank(gap) && (gap != [] || rest == [])
    ensures FieldsFrom(w, gap + rest) == [w] + FieldsFrom([], rest)
  {
    if gap == [] {
      assert gap + rest == [];
    } else {
      assert (gap + rest)[0] == gap[0] && (gap + rest)[1..] == gap[1..] + rest;
      FieldsOfGap(gap[1..], rest);
    }
  }

  /** Splitting words with any white space around them gives them back. */
  lemma {:induction false} FieldsSpaced(gaps: seq<string>, words: seq<string>)
    requires |gaps| == |words| + 1 && Gaps(gaps)
    requires forall i | 0 <= i < |words| :: words[i] != [] && Solid(words[i])
    ensures Fields(Spaced(gaps, words)) == words
  {
    hide FieldsFrom, Blank, Solid, Gaps, Spaced;
    if words == [] {
      OneGap(gaps, words);
    } else {
      GapsTail(gaps);
      FieldsSpaced(gaps[1..], words[1..]);
      OneWord(gaps, words);
      assert words == [words[0]] + words[1..];
    }
  }

  lemma OneGap(gaps: seq<string>, words: seq<string>)
    requires |gaps| == 1 && Gaps(gaps) && words == []
    ensures Fields(Spaced(gaps, words)) == []
  {
    hide FieldsFrom, Blank;
    assert gaps[0] + [] == gaps[0];
    FieldsOfGap(gaps[0], []);
    NoFields();
  }

  /** What follows the first gap of a text. */
  function Beyond(gaps: seq<string>, words: seq<string>): string
    requires |gaps| == |words| + 1
  {
    if words == [] then [] else words[0] + Spaced(gaps[1..], words[1..])
  }

  lemma GapThenBeyond(gaps: seq<string>, words: seq<string>)
    requires |gaps| == |words| + 1
    ensures Spaced(gaps, words) == gaps[0] + Beyond(gaps, words)
  {
    if words == [] { assert gaps[0] + [] == gaps[0]; }
  }

  lemma OneWord(gaps: seq<string>, words: seq<string>)
    requires |gaps| == |words| + 1 && words != [] && Blank(gaps[0]) && Blank(gaps[1])
    requires |gaps| > 2 ==> gaps[1] != []
    requires words[0] != [] && Solid(words[0])
    ensures Fields(Spaced(gaps, words)) == [words[0]] + Fields(Spaced(gaps[1..], words[1..]))
  {
    hide FieldsFrom, Blank, Solid, Spaced;
    var w, rest := words[0], Spaced(gaps[1..], words[1..]);
    GapThenBeyond(gaps, words);
    GapThenBeyond(gaps[1..], words[1..]);
    FieldsOfGap(gaps[0], w + rest);
    FieldsOfWord([], w, rest);
    assert [] + w == w;
    WordEnds(w, gaps[1], Beyond(gaps[1..], words[1..]));
    FieldsOfGap(gaps[1], Beyond(gaps[1..], words[1..]));
  }

  lemma GapsTail(gaps: seq<string>)
    requires |gaps| >= 2 && Gaps(gaps)
    ensures Gaps(gaps[1..]) && Blank(gaps[0]) && Blank(gaps[1]) && (|gaps| > 2 ==> gaps[1] != [])
  {
  }

  lemma NoFields()
    ensures FieldsFrom([], []) == []
  {
  }

  lemma {:induction false} TrimLeftOf(l: string, w: string)
    requires Blank(l) && (w == [] || !IsSpace(w[0]))
    ensures TrimLeft(l + w) == w
    decreases |l|
  {
    if l == [] {
      assert l + w == w;
    } else {
      assert (l + w)[0] == l[0] && (l + w)[1..] == l[1..] + w;
      TrimLeftOf(l[1..], w);
    }
  }

  lemma TrimRightStep(s: string, c: char)
    requires IsSpace(c)
    ensures TrimRight(s + [c]) == TrimRight(s)
  {
    hide IsSpace;
    assert (s + [c])[..|s|] == s && (s + [c])[|s|] == c;
  }

  lemma {:induction false} TrimRightOf(w: string, r: string)
    requires Blank(r) && (w == [] || !IsSpace(w[|w| - 1]))
    ensures TrimRight(w + r) == w
    decreases |r|
  {
    hide IsSpace;
    if r == [] {
      assert w + r == w;
    } else {
      var n := |r| - 1;
      assert w + r == (w + r[..n]) + [r[n]];
      TrimRightStep(w + r[..n], r[n]);
      TrimRightOf(w, r[..n]);
    }
  }

  /** White space is trimmed on both sides, and nothing else. */
  lemma TrimPadded(l: string, w: string, r: string)
    requires Blank(l) && Blank(r) && w != [] && !IsSpace(w[0]) && !IsSpace(w[|w| - 1])
    ensures TrimSpace(l + w + r) == w
  {
    hide IsSpace, Blank;
    assert l + w + r == l + (w + r);
    TrimLeftOf(l, w + r);
    TrimRightOf(w, r);
  }

  lemma TrimBlank(s: string)
    requires Blank(s)
    ensures TrimSpace(s) == []
  {
    assert s + [] == s;
    TrimLeftOf(s, []);
  }

  lemma TrimSolid(s: string)
    requires Solid(s)
    ensures TrimSpace(s) == s
  {
  }

  // ---------------------------------------------------------------- separators

  /** `strings.Split` at a one-character separator. */
  function Split(s: string, sep: char): (parts: seq<string>)
    ensures parts != []
  {
    if s == [] then [[]]
    else
      var rest := Split(s[1..], sep);
      if s[0] == sep then [[]] + rest else [[s[0]] + rest[0]] + rest[1..]
  }

  function Join(parts: seq<string>, sep: char): string
    requires parts != []
  {
    if |parts| == 1 then parts[0] else parts[0] + [sep] + Join(parts[1..], sep)
  }

  lemma {:induction false} SplitWord(w: string, rest: string, sep: char)
    requires sep !in w
    ensures var after := Split(rest, sep); Split(w + rest, sep) == [w + after[0]] + after[1..]
    decreases |w|
  {
    var after := Split(rest, sep);
    if w == [] {
      assert w + rest == rest && w + after[0] == after[0];
    } else {
      assert (w + rest)[0] == w[0] && (w + rest)[1..] == w[1..] + rest;
      SplitWord(w[1..], rest, sep);
      assert [w[0]] + (w[1..] + after[0]) == w + after[0];
    }
  }

  lemma {:induction false} SplitJoin(parts: seq<string>, sep: char)
    requires parts != [] && forall i | 0 <= i < |parts| :: sep !in parts[i]
    ensures Split(Join(parts, sep), sep) == parts
  {
    var w := parts[0];
    if |parts| == 1 {
      SplitWord(w, [], sep);
      assert w + [] == w && parts == [w];
    } else {
      SplitJoin(parts[1..], sep);
      var tail := [sep] + Join(parts[1..], sep);
      assert tail[0] == sep && tail[1..] == Join(parts[1..], sep);
      assert w + [sep] + Join(parts[1..], sep) == w + tail;
      SplitWord(w, tail, sep);
      assert w + [] == w && parts == [w] + parts[1..];
    }
  }

  /** And joining what was split gives the text back, whose parts are free of the separator. */
  lemma {:induction false} JoinSplit(s: string, sep: char)
    ensures Join(Split(s, sep), sep) == s
    ensures forall i | 0 <= i < |Split(s, sep)| :: sep !in Split(s, sep)[i]
  {
    hide Join;
    if s == [] {
      JoinOne([], sep);
    } else {
      JoinSplit(s[1..], sep);
      var rest := Split(s[1..], sep);
      assert s == [s[0]] + s[1..];
      if s[0] == sep {
        JoinMore([], rest, sep);
        assert [] + [sep] + s[1..] == s;
      } else {
        JoinHead(s[0], rest, sep);
      }
    }
  }

  lemma JoinOne(part: string, sep: char)
    ensures Join([part], sep) == part
  {
  }

  lemma JoinMore(part: string, parts: seq<string>, sep: char)
    requires parts != []
    ensures Join([part] + parts, sep) == part + [sep] + Join(parts, sep)
  {
    assert ([part] + parts)[1..] == parts;
  }

  lemma JoinHead(c: char, parts: seq<string>, sep: char)
    requires parts != []
    ensures Join([[c] + parts[0]] + parts[1..], sep) == [c] + Join(parts, sep)
  {
    var more := [[c] + parts[0]] + parts[1..];
    if |parts| > 1 {
      assert more[1..] == parts[1..];
      assert [c] + (parts[0] + [sep] + Join(parts[1..], sep)) == ([c] + parts[0]) + [sep] + Join(parts[1..], sep);
    }
  }

  /** The text before and after the first `sep`: `strings.SplitN(s, sep, 2)` on a string that has one. */
  function SplitFirst(s: string, sep: char): (string, string)
    requires sep in s
  {
    if s[0] == sep then ([], s[1..])
    else
      var rest := SplitFirst(s[1..], sep);
      ([s[0]] + rest.0, rest.1)
  }

  lemma {:induction false} SplitFirstOf(a: string, b: string, sep: char)
    requires sep !in a
    ensures sep in a + [sep] + b && SplitFirst(a + [sep] + b, sep) == (a, b)
    decreases |a|
  {
    var s := a + [sep] + b;
    assert s[|a|] == sep;
    if a == [] {
      assert s[1..] == b;
    } else {
      assert s[1..] == a[1..] + [sep] + b;
      SplitFirstOf(a[1..], b, sep);
      assert s[0] == a[0] && [a[0]] + a[1..] == a;
    }
  }

  lemma {:induction false} SplitFirstParts(s: string, sep: char)
    requires sep in s
    ensures var (a, b) := SplitFirst(s, sep); s == a + [sep] + b && sep !in a
  {
    if s[0] != sep {
      SplitFirstParts(s[1..], sep);
      assert s == [s[0]] + s[1..];
    } else {
      assert s == [] + [sep] + s[1..];
    }
  }
}
