/** Models of the Python string operations the shell applies to command
    lines: `str.isspace`, `str.strip`, `str.split()`, `str.split(sep)`,
    `" ".join(...)` and `int(...)`. Strings are sequences of characters. */
module Text {

  import opened Options

  /** The characters for which Python's `str.isspace` holds. */
  predicate IsSpace(c: char)
  {
    || c == ' ' || ('\t' <= c <= '\r') || ('\U{1c}' <= c <= '\U{1f}')
    || c == '\U{85}' || c == '\U{a0}' || c == '\U{1680}'
    || ('\U{2000}' <= c <= '\U{200a}') || c == '\U{2028}' || c == '\U{2029}'
    || c == '\U{202f}' || c == '\U{205f}' || c == '\U{3000}'
  }

  /** `not s.strip()`: the line holds nothing but whitespace. */
  predicate IsBlank(s: string)
  {
    forall i :: 0 <= i < |s| ==> IsSpace(s[i])
  }

  predicate IsWord(w: string)
  {
    w != [] && forall i :: 0 <= i < |w| ==> !IsSpace(w[i])
  }

  /** `s.split()`: the maximal runs of non-whitespace characters, in order. */
  function Words(s: string): (r: seq<string>)
    ensures r == [] <==> IsBlank(s)
    ensures forall k :: 0 <= k < |r| ==> IsWord(r[k])
    ensures s != [] && !IsSpace(s[0]) ==> r != [] && IsWord(r[0]) && r[0][0] == s[0]
    decreases |s|
  {
    if s == [] then []
    else
      var rest := Words(s[1..]);
      if IsSpace(s[0]) then
        assert IsBlank(s) <==> IsBlank(s[1..]) by {
          if IsBlank(s[1..]) {
            forall i | 0 <= i < |s| ensures IsSpace(s[i]) {
              if i > 0 { assert s[i] == s[1..][i - 1]; }
            }
          }
        }
        rest
      else if |s| > 1 && !IsSpace(s[1]) then [[s[0]] + rest[0]] + rest[1..]
      else [[s[0]]] + rest
  }

  /** All the characters of `s` that are not whitespace, in order. */
  function NonSpace(s: string): string
  {
    if s == [] then [] else (if IsSpace(s[0]) then [] else [s[0]]) + NonSpace(s[1..])
  }

  function Concat(ws: seq<string>): string
  {
    if ws == [] then [] else ws[0] + Concat(ws[1..])
  }

  /** Splitting on whitespace loses exactly the whitespace: the words,
      put back together, are the line's non-whitespace characters. */
  lemma {:induction false} WordsKeepEveryCharacter(s: string)
    ensures Concat(Words(s)) == NonSpace(s)
    decreases |s|
  {
    if s != [] {
      WordsKeepEveryCharacter(s[1..]);
      var rest := Words(s[1..]);
      if !IsSpace(s[0]) && |s| > 1 && !IsSpace(s[1]) {
        assert Concat(rest) == rest[0] + Concat(rest[1..]);
        calc {
          Concat(Words(s));
          ([s[0]] + rest[0]) + Concat(rest[1..]);
          [s[0]] + Concat(rest);
        }
      } else if !IsSpace(s[0]) {
        assert Words(s) == [[s[0]]] + rest;
        assert Concat([[s[0]]] + rest) == [s[0]] + Concat(rest);
      }
    }
  }

  /** `sep.join(ps)`. */
  function JoinWith(ps: seq<string>, sep: char): string
  {
    if ps == [] then []
    else if |ps| == 1 then ps[0]
    else ps[0] + [sep] + JoinWith(ps[1..], sep)
  }

  /** Leading whitespace is skipped: it adds no word. */
  lemma {:induction false} WordsOfBlankPrefix(g: string, s: string)
    requires IsBlank(g)
    ensures Words(g + s) == Words(s)
    decreases |g|
  {
    if g != [] {
      assert (g + s)[0] == g[0] && (g + s)[1..] == g[1..] + s;
      assert IsBlank(g[1..]) by {
        forall i | 0 <= i < |g[1..]| ensures IsSpace(g[1..][i]) { assert g[1..][i] == g[i + 1]; }
      }
      WordsOfBlankPrefix(g[1..], s);
    } else {
      assert g + s == s;
    }
  }

  /** A word followed by whitespace, or by nothing, is split off whole. */
  lemma {:induction false} WordsOfWordThen(w: string, t: string)
    requires IsWord(w) && (t == [] || IsSpace(t[0]))
    ensures Words(w + t) == [w] + Words(t)
    decreases |w|
  {
    var s := w + t;
    assert s[1..] == w[1..] + t;
    if |w| == 1 {
      assert w == [s[0]];
    } else {
      assert IsWord(w[1..]) by {
        forall i | 0 <= i < |w[1..]| ensures !IsSpace(w[1..][i]) { assert w[1..][i] == w[i + 1]; }
      }
      WordsOfWordThen(w[1..], t);
      assert [s[0]] + w[1..] == w;
    }
  }

  /** `split()` takes a word out of a line however much whitespace
      surrounds it: `"  ls   -l".split() == ["ls", "-l"]`. */
  lemma WordsOfSpacedWord(g: string, w: string, t: string)
    requires IsBlank(g) && IsWord(w) && (t == [] || IsSpace(t[0]))
    ensures Words(g + w + t) == [w] + Words(t)
  {
    assert g + w + t == g + (w + t);
    WordsOfBlankPrefix(g, w + t);
    WordsOfWordThen(w, t);
  }

  /** A logged argument string splits back into the arguments it joined:
      `" ".join(args).split() == args` for arguments produced by `split()`. */
  lemma {:induction false} SplitJoinedWords(ws: seq<string>)
    requires forall k :: 0 <= k < |ws| ==> IsWord(ws[k])
    ensures Words(JoinWith(ws, ' ')) == ws
    decreases |ws|
  {
    if |ws| == 1 {
      WordsOfWordThen(ws[0], []);
      assert ws[0] + [] == ws[0];
    } else if |ws| > 1 {
      var rest := JoinWith(ws[1..], ' ');
      SplitJoinedWords(ws[1..]);
      WordsOfWordThen(ws[0], [' '] + rest);
      WordsOfBlankPrefix([' '], rest);
      assert JoinWith(ws, ' ') == ws[0] + ([' '] + rest);
      assert [ws[0]] + ws[1..] == ws;
    }
  }

  /** `s.split(sep)`: the pieces between the occurrences of `sep`, empty
      pieces included. */
  function Split(s: string, sep: char): (r: seq<string>)
    ensures |r| >= 1
    ensures forall k :: 0 <= k < |r| ==> sep !in r[k]
    decreases |s|
  {
    if s == [] then [[]]
    else
      var rest := Split(s[1..], sep);
      if s[0] == sep then [[]] + rest else [[s[0]] + rest[0]] + rest[1..]
  }

  /** A string without the separator is a single piece. */
  lemma {:induction false} SplitWithoutSeparator(s: string, sep: char)
    requires sep !in s
    ensures Split(s, sep) == [s]
    decreases |s|
  {
    if s != [] {
      assert forall j :: 0 <= j < |s[1..]| ==> s[1..][j] == s[j + 1];
      SplitWithoutSeparator(s[1..], sep);
      assert [s[0]] + s[1..] == s;
    }
  }

  /** Appending a separator and a piece without one appends that piece. */
  lemma {:induction false} SplitSnoc(s: string, sep: char, t: string)
    requires sep !in t
    ensures Split(s + [sep] + t, sep) == Split(s, sep) + [t]
    decreases |s|
  {
    if s == [] {
      assert s + [sep] + t == [sep] + t;
      assert ([sep] + t)[1..] == t;
      SplitWithoutSeparator(t, sep);
    } else {
      assert (s + [sep] + t)[1..] == s[1..] + [sep] + t;
      SplitSnoc(s[1..], sep, t);
    }
  }

  /** Joining the pieces with the separator gives back the string. */
  lemma {:induction false} SplitThenJoin(s: string, sep: char)
    ensures JoinWith(Split(s, sep), sep) == s
    decreases |s|
  {
    if s != [] {
      SplitThenJoin(s[1..], sep);
      var rest := Split(s[1..], sep);
      if s[0] == sep {
        assert JoinWith([[]] + rest, sep) == [sep] + JoinWith(rest, sep);
      } else if |rest| == 1 {
        assert JoinWith(Split(s, sep), sep) == [s[0]] + rest[0];
      } else {
        assert JoinWith(rest, sep) == rest[0] + [sep] + JoinWith(rest[1..], sep);
        assert JoinWith(Split(s, sep), sep) == ([s[0]] + rest[0]) + [sep] + JoinWith(rest[1..], sep);
      }
    }
  }

  /** Prepending a piece without the separator, and a separator, prepends
      that piece. */
  lemma {:induction false} SplitCons(x: string, sep: char, t: string)
    requires sep !in x
    ensures Split(x + [sep] + t, sep) == [x] + Split(t, sep)
    decreases |x|
  {
    var s := x + [sep] + t;
    if x == [] {
      assert s == [sep] + t && s[1..] == t;
    } else {
      assert s[0] == x[0] && s[1..] == x[1..] + [sep] + t;
      SplitCons(x[1..], sep, t);
      assert [x[0]] + x[1..] == x;
    }
  }

  /** Splitting what was joined gives back the pieces, when no piece holds
      the separator. */
  lemma {:induction false} JoinThenSplit(ps: seq<string>, sep: char)
    requires ps != [] && forall k :: 0 <= k < |ps| ==> sep !in ps[k]
    ensures Split(JoinWith(ps, sep), sep) == ps
    decreases |ps|
  {
    if |ps| == 1 {
      SplitWithoutSeparator(ps[0], sep);
    } else {
      JoinThenSplit(ps[1..], sep);
      SplitCons(ps[0], sep, JoinWith(ps[1..], sep));
      assert [ps[0]] + ps[1..] == ps;
    }
  }

  /** The number of occurrences of `c` in `s`. */
  function Count(s: string, c: char): nat
  {
    if s == [] then 0 else (if s[0] == c then 1 else 0) + Count(s[1..], c)
  }

  /** `s.split(sep)` has one more piece than `s` has separators. */
  lemma {:induction false} SplitCount(s: string, sep: char)
    ensures |Split(s, sep)| == Count(s, sep) + 1
    decreases |s|
  {
    if s != [] {
      SplitCount(s[1..], sep);
    }
  }

  predicate IsDigit(c: char)
  {
    '0' <= c <= '9'
  }

  /** A run of decimal digits with single underscores between them, the
      body Python's `int` accepts. */
  predicate IsDigitRun(s: string)
  {
    && s != [] && IsDigit(s[0]) && IsDigit(s[|s| - 1])
    && (forall i :: 0 <= i < |s| ==> IsDigit(s[i]) || s[i] == '_')
    && (forall i :: 0 <= i < |s| - 1 ==> s[i] == '_' ==> s[i + 1] != '_')
  }

  /** The number of decimal digits in `s`, underscores and signs not
      counted. */
  function DigitCount(s: string): nat
  {
    if s == [] then 0 else (if IsDigit(s[0]) then 1 else 0) + DigitCount(s[1..])
  }

  /** The default of `sys.get_int_max_str_digits()`: `int` refuses a
      decimal string with more digits than this. */
  const MaxStrDigits: nat := 4300

  /** The part of `int(s)`'s argument after an optional sign: a digit run
      within the digit limit. */
  predicate IsIntBody(s: string)
  {
    IsDigitRun(s) && DigitCount(s) <= MaxStrDigits
  }

  /** The value of a digit run, underscores ignored. */
  function DigitsValue(s: string): nat
  {
    if s == [] then 0
    else if IsDigit(s[|s| - 1]) then DigitsValue(s[..|s| - 1]) * 10 + (s[|s| - 1] as int - '0' as int)
    else DigitsValue(s[..|s| - 1])
  }

  /** `int(s)` for an argument without whitespace: an optional sign and a
      digit run of at most `MaxStrDigits` digits; anything else is a
      `ValueError`, here `None`. */
  function ParseInt(s: string): (r: Option<int>)
    ensures r.Some? <==> IsIntBody(s) || (s != [] && (s[0] == '+' || s[0] == '-') && IsIntBody(s[1..]))
    ensures r.Some? && s[0] == '-' ==> r.value <= 0
    ensures r.Some? && s[0] != '-' ==> r.value >= 0
  {
    if s != [] && (s[0] == '+' || s[0] == '-') then
      if IsIntBody(s[1..]) then
        var v: int := DigitsValue(s[1..]);
        Some(if s[0] == '-' then -v else v)
      else None
    else if IsIntBody(s) then Some(DigitsValue(s))
    else None
  }

  /** The decimal numeral of `n`, as `str(n)` writes it. */
  function ShowNat(n: nat): (r: string)
    ensures r != [] && forall i :: 0 <= i < |r| ==> IsDigit(r[i])
  {
    if n < 10 then [('0' as int + n) as char]
    else ShowNat(n / 10) + [('0' as int + n % 10) as char]
  }

  lemma {:induction false} ShowNatValue(n: nat)
    ensures DigitsValue(ShowNat(n)) == n
  {
    if n >= 10 {
      ShowNatValue(n / 10);
      var s := ShowNat(n);
      assert s[..|s| - 1] == ShowNat(n / 10);
    }
  }

  /** A string of digits has as many digits as characters. */
  lemma {:induction false} DigitCountOfDigits(s: string)
    requires forall i :: 0 <= i < |s| ==> IsDigit(s[i])
    ensures DigitCount(s) == |s|
    decreases |s|
  {
    if s != [] {
      assert forall i :: 0 <= i < |s[1..]| ==> s[1..][i] == s[i + 1];
      DigitCountOfDigits(s[1..]);
    }
  }

  /** `int(str(n)) == n` and `int("-" + str(n)) == -n` for every numeral
      within the digit limit. */
  lemma ParseShowNat(n: nat)
    requires |ShowNat(n)| <= MaxStrDigits
    ensures ParseInt(ShowNat(n)) == Some(n)
    ensures ParseInt("-" + ShowNat(n)) == Some(-(n as int))
  {
    ShowNatValue(n);
    var s := ShowNat(n);
    DigitCountOfDigits(s);
    assert IsDigitRun(s);
    assert ("-" + s)[1..] == s;
  }

  /** A numeral of more than `MaxStrDigits` digits is refused, whatever
      its sign: `int("1" * 4301)` raises. */
  lemma LongNumeralRefused(s: string)
    requires DigitCount(s) > MaxStrDigits
    ensures ParseInt(s) == None
  {
    if s != [] && (s[0] == '+' || s[0] == '-') {
      assert DigitCount(s) == DigitCount(s[1..]);
    }
  }
}
