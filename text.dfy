/** The string operations the adapter relies on, with JavaScript's meaning:
    `indexOf`, `includes`, `endsWith`, `split` on a one-character pattern,
    `join`, `trim`, the `\s` character class and decimal numbers. */
module Text {

  datatype Option<+T> = None | Some(value: T) {
    predicate IsFailure() { None? }

    function PropagateFailure<U>(): Option<U>
      requires None?
    {
      None
    }

    function Extract(): T
      requires Some?
    {
      value
    }
  }

  /** A value read from the front of a string, and what is left after it. */
  datatype Scan<+T> = Scan(value: T, rest: string)

  function Last<T>(xs: seq<T>): T
    requires |xs| > 0
  {
    xs[|xs| - 1]
  }

  // ---------------------------------------------------------------------------
  // Searching

  /** `pat` occurs in `s` starting at index `k`. */
  predicate OccursAt(s: string, pat: string, k: int)
  {
    0 <= k && k + |pat| <= |s| && s[k..k + |pat|] == pat
  }

  function IndexFrom(s: string, pat: string, from: nat): (r: int)
    ensures r == -1 || (from <= r && OccursAt(s, pat, r))
    ensures r == -1 ==> forall k :: from <= k ==> !OccursAt(s, pat, k)
    ensures r != -1 ==> forall k :: from <= k < r ==> !OccursAt(s, pat, k)
    decreases |s| + 1 - from
  {
    if from + |pat| > |s| then -1
    else if s[from..from + |pat|] == pat then from
    else IndexFrom(s, pat, from + 1)
  }

  /** `s.indexOf(pat)`: the first index where `pat` occurs, or -1. */
  function IndexOf(s: string, pat: string): (r: int)
    ensures r == -1 || OccursAt(s, pat, r)
    ensures r == -1 <==> forall k :: !OccursAt(s, pat, k)
    ensures forall k :: 0 <= k < r ==> !OccursAt(s, pat, k)
  {
    IndexFrom(s, pat, 0)
  }

  /** `s.includes(pat)`, which the source also writes `s.indexOf(pat) >= 0`. */
  predicate Contains(s: string, pat: string)
  {
    IndexOf(s, pat) >= 0
  }

  lemma ContainsAt(s: string, pat: string, k: int)
    requires OccursAt(s, pat, k)
    ensures Contains(s, pat) && IndexOf(s, pat) <= k
  {
  }

  predicate StartsWith(s: string, prefix: string)
  {
    |prefix| <= |s| && s[..|prefix|] == prefix
  }

  lemma StartsWithOccurs(s: string, pat: string, k: int)
    ensures 0 <= k <= |s| && StartsWith(s[k..], pat) ==> OccursAt(s, pat, k) && Contains(s, pat)
  {
    if 0 <= k <= |s| && StartsWith(s[k..], pat) {
      assert s[k..][..|pat|] == s[k..k + |pat|];
      ContainsAt(s, pat, k);
    }
  }

  /** `s.endsWith(suffix)`, and also `s.slice(-|suffix|) === suffix` for a non-empty suffix. */
  predicate EndsWith(s: string, suffix: string)
  {
    |suffix| <= |s| && s[|s| - |suffix|..] == suffix
  }

  /** Consumes a literal at the front of `s`. */
  function Lit(s: string, lit: string): (r: Option<string>)
    ensures r.Some? <==> StartsWith(s, lit)
    ensures r.Some? ==> s == lit + r.value
  {
    if StartsWith(s, lit) then Some(s[|lit|..]) else None
  }

  lemma LitOf(lit: string, rest: string)
    ensures Lit(lit + rest, lit) == Some(rest)
  {
    assert (lit + rest)[..|lit|] == lit;
    assert (lit + rest)[|lit|..] == rest;
  }

  // ---------------------------------------------------------------------------
  // Decimal numbers

  predicate IsDigit(c: char)
  {
    '0' <= c <= '9'
  }

  predicate AllDigits(s: string)
  {
    forall i :: 0 <= i < |s| ==> IsDigit(s[i])
  }

  /** `/^[0-9]+$/.test(s)` */
  predicate IsDigits(s: string)
  {
    |s| > 0 && AllDigits(s)
  }

  /** The value of a string of decimal digits (leading zeros allowed, as in `parseInt`). */
  function ParseNat(s: string): nat
    requires AllDigits(s)
  {
    if s == [] then 0 else 10 * ParseNat(s[..|s| - 1]) + (s[|s| - 1] as int - '0' as int)
  }

  function DigitChar(d: nat): (c: char)
    requires d < 10
    ensures IsDigit(c) && c as int - '0' as int == d
  {
    ('0' as int + d) as char
  }

  /** The decimal text of `n` (JavaScript's number-to-string for a non-negative integer). */
  function NatToString(n: nat): (s: string)
    ensures IsDigits(s) && ParseNat(s) == n
    ensures |s| > 1 ==> s[0] != '0'
  {
    if n < 10 then [DigitChar(n)]
    else
      var s := NatToString(n / 10) + [DigitChar(n % 10)];
      assert s[..|s| - 1] == NatToString(n / 10);
      s
  }

  function IntToString(i: int): (s: string)
    ensures |s| > 0
  {
    if i < 0 then "-" + NatToString(-i) else NatToString(i)
  }

  lemma IntToStringNoSpace(i: int)
    ensures ' ' !in IntToString(i)
  {
    var d := NatToString(if i < 0 then -i else i);
    assert forall k :: 0 <= k < |d| ==> IsDigit(d[k]);
  }

  /** Number of decimal digits at the front of `s`. */
  function LeadingDigits(s: string): (n: nat)
    ensures n <= |s| && AllDigits(s[..n])
    ensures n < |s| ==> !IsDigit(s[n])
  {
    if s != [] && IsDigit(s[0]) then
      var n := 1 + LeadingDigits(s[1..]);
      assert s[..n] == [s[0]] + s[1..][..n - 1];
      n
    else 0
  }

  /** The regular-expression atom `\d+`: the longest run of digits at the front, at least one. */
  function Number(s: string): (r: Option<Scan<nat>>)
    ensures r.Some? ==> |r.value.rest| < |s| && s == s[..|s| - |r.value.rest|] + r.value.rest
    ensures r.Some? ==> r.value.rest == [] || !IsDigit(r.value.rest[0])
  {
    var n := LeadingDigits(s);
    if n == 0 then None else
    assert s == s[..n] + s[n..];
    Some(Scan(ParseNat(s[..n]), s[n..]))
  }

  lemma {:induction false} LeadingDigitsOf(d: string, rest: string)
    requires AllDigits(d)
    requires rest == [] || !IsDigit(rest[0])
    ensures LeadingDigits(d + rest) == |d|
  {
    if d != [] {
      assert (d + rest)[1..] == d[1..] + rest;
      LeadingDigitsOf(d[1..], rest);
    } else {
      assert d + rest == rest;
    }
  }

  /** Reading back the decimal text of `n` gives `n` and stops where the digits stop. */
  lemma NumberOf(n: nat, rest: string)
    requires rest == [] || !IsDigit(rest[0])
    ensures Number(NatToString(n) + rest) == Some(Scan(n, rest))
  {
    var d := NatToString(n);
    LeadingDigitsOf(d, rest);
    assert (d + rest)[..|d|] == d;
    assert (d + rest)[|d|..] == rest;
  }

  /** JavaScript's unary `+` on a captured string, for decimal digits only: white space
      around it is ignored, an empty or all-space string is 0, a run of decimal digits is
      its value, and anything else is None (NaN for most such text; the signed, fractional,
      exponent and hexadecimal forms JavaScript also reads are not modelled). */
  function ToNumber(s: string): (r: Option<nat>)
    ensures r.Some? <==> Trim(s) == [] || IsDigits(Trim(s))
    ensures Trim(s) == [] ==> r == Some(0)
  {
    var t := Trim(s);
    if t == [] then Some(0) else if IsDigits(t) then Some(ParseNat(t)) else None
  }

  /** The decimal text of a number reads back as that number. */
  lemma ToNumberOf(n: nat)
    ensures ToNumber(NatToString(n)) == Some(n)
  {
    var d := NatToString(n);
    TrimUnchanged(d);
  }

  /** A non-empty run of characters other than `stop` (the atom `[^stop]+`), taken as long as possible. */
  function Span(s: string, stop: char): (r: Option<Scan<string>>)
    ensures r.Some? ==> r.value.value != [] && stop !in r.value.value
    ensures r.Some? ==> s == r.value.value + r.value.rest
    ensures r.Some? ==> r.value.rest == [] || r.value.rest[0] == stop
    ensures r.None? ==> s == [] || s[0] == stop
  {
    if s == [] || s[0] == stop then None
    else match Span(s[1..], stop)
      case None => Some(Scan([s[0]], s[1..]))
      case Some(Scan(v, rest)) => Some(Scan([s[0]] + v, rest))
  }

  lemma {:induction false} SpanOf(v: string, rest: string, stop: char)
    requires v != [] && stop !in v
    requires rest == [] || rest[0] == stop
    ensures Span(v + rest, stop) == Some(Scan(v, rest))
  {
    assert (v + rest)[1..] == v[1..] + rest;
    if |v| > 1 {
      SpanOf(v[1..], rest, stop);
      assert [v[0]] + v[1..] == v;
    }
  }

  // ---------------------------------------------------------------------------
  // Splitting and joining

  /** `s.split(sep)` (or `s.split(/sep/g)`) for a single-character separator. */
  function Split(s: string, sep: char): (parts: seq<string>)
    ensures |parts| >= 1
    ensures forall i :: 0 <= i < |parts| ==> sep !in parts[i]
  {
    if s == [] then [[]]
    else
      var rest := Split(s[1..], sep);
      if s[0] == sep then [[]] + rest else [[s[0]] + rest[0]] + rest[1..]
  }

  /** `parts.join(sep)` */
  function Join(parts: seq<string>, sep: string): string
  {
    if |parts| == 0 then []
    else if |parts| == 1 then parts[0]
    else parts[0] + sep + Join(parts[1..], sep)
  }

  lemma {:induction false} JoinFirst(parts: seq<string>, sep: string)
    requires |parts| >= 1
    ensures StartsWith(Join(parts, sep), parts[0])
  {
    if |parts| > 1 {
      assert Join(parts, sep) == parts[0] + (sep + Join(parts[1..], sep));
    }
  }

  lemma {:induction false} JoinLast(parts: seq<string>, sep: string)
    requires |parts| >= 1
    ensures EndsWith(Join(parts, sep), Last(parts))
  {
    if |parts| > 1 {
      JoinLast(parts[1..], sep);
      assert Join(parts, sep) == (parts[0] + sep) + Join(parts[1..], sep);
    }
  }

  /** Joining the pieces of a split with the separator gives back the string. */
  lemma {:induction false} JoinSplit(s: string, sep: char)
    ensures Join(Split(s, sep), [sep]) == s
  {
    if s != [] {
      var rest := Split(s[1..], sep);
      JoinSplit(s[1..], sep);
      if s[0] == sep {
        assert Split(s, sep) == [[]] + rest;
      } else if |rest| == 1 {
        assert Split(s, sep) == [[s[0]] + rest[0]];
      } else {
        assert Split(s, sep)[1..] == rest[1..];
        assert Join(rest, [sep]) == rest[0] + [sep] + Join(rest[1..], [sep]);
      }
    }
  }

  lemma {:induction false} SplitNoSeparator(s: string, sep: char)
    requires sep !in s
    ensures Split(s, sep) == [s]
  {
    if s != [] {
      SplitNoSeparator(s[1..], sep);
      assert [s[0]] + s[1..] == s;
    }
  }

  lemma {:induction false} SplitPiece(a: string, rest: string, sep: char)
    requires sep !in a
    ensures Split(a + [sep] + rest, sep) == [a] + Split(rest, sep)
  {
    if a == [] {
      assert a + [sep] + rest == [sep] + rest;
      assert ([sep] + rest)[1..] == rest;
    } else {
      assert (a + [sep] + rest)[1..] == a[1..] + [sep] + rest;
      SplitPiece(a[1..], rest, sep);
      assert [a[0]] + a[1..] == a;
    }
  }

  /** Splitting at a separator splits the text on each side of it separately. */
  lemma {:induction false} SplitConcat(a: string, rest: string, sep: char)
    ensures Split(a + [sep] + rest, sep) == Split(a, sep) + Split(rest, sep)
  {
    if a == [] {
      assert a + [sep] + rest == [sep] + rest;
      assert ([sep] + rest)[1..] == rest;
    } else {
      assert (a + [sep] + rest)[1..] == a[1..] + [sep] + rest;
      SplitConcat(a[1..], rest, sep);
      var left := Split(a[1..], sep);
      if a[0] != sep {
        assert (left + Split(rest, sep))[1..] == left[1..] + Split(rest, sep);
      }
    }
  }

  /** Splitting a join of separator-free pieces gives back the pieces. */
  lemma {:induction false} SplitJoin(parts: seq<string>, sep: char)
    requires |parts| >= 1
    requires forall i :: 0 <= i < |parts| ==> sep !in parts[i]
    ensures Split(Join(parts, [sep]), sep) == parts
  {
    if |parts| == 1 {
      SplitNoSeparator(parts[0], sep);
    } else {
      SplitJoin(parts[1..], sep);
      SplitPiece(parts[0], Join(parts[1..], [sep]), sep);
      assert [parts[0]] + parts[1..] == parts;
    }
  }

  // ---------------------------------------------------------------------------
  // White space

  /** JavaScript's WhiteSpace and LineTerminator characters: the class `\s`, and what `trim()` removes. */
  predicate IsSpace(c: char)
  {
    c == ' ' || c == '\t' || c == '\n' || c == '\r' || c == '\U{B}' || c == '\U{C}' ||
    c == '\U{A0}' || c == '\U{1680}' || ('\U{2000}' <= c <= '\U{200A}') ||
    c == '\U{2028}' || c == '\U{2029}' || c == '\U{202F}' || c == '\U{205F}' ||
    c == '\U{3000}' || c == '\U{FEFF}'
  }

  predicate NoSpace(s: string)
  {
    forall i :: 0 <= i < |s| ==> !IsSpace(s[i])
  }

  function TrimStart(s: string): (r: string)
    ensures |r| <= |s|
    ensures r == [] || !IsSpace(r[0])
    ensures forall i :: 0 <= i < |s| - |r| ==> IsSpace(s[i])
  {
    if s != [] && IsSpace(s[0]) then TrimStart(s[1..]) else s
  }

  /** What `TrimStart` leaves is a suffix of its argument. */
  lemma {:induction false} TrimStartSuffix(s: string)
    ensures TrimStart(s) == s[|s| - |TrimStart(s)|..]
  {
    if s != [] && IsSpace(s[0]) {
      TrimStartSuffix(s[1..]);
      assert s[1..][|s| - 1 - |TrimStart(s)|..] == s[|s| - |TrimStart(s)|..];
    }
  }

  function TrimEnd(s: string): (r: string)
    ensures |r| <= |s| && r == s[..|r|]
    ensures r == [] || !IsSpace(r[|r| - 1])
    ensures forall i :: |r| <= i < |s| ==> IsSpace(s[i])
  {
    if s != [] && IsSpace(s[|s| - 1]) then TrimEnd(s[..|s| - 1]) else s
  }

  /** `s.trim()` */
  function Trim(s: string): (r: string)
  {
    TrimEnd(TrimStart(s))
  }

  /** Text that neither starts nor ends with white space is its own trim. */
  lemma TrimUnchanged(s: string)
    requires s != [] && !IsSpace(s[0]) && !IsSpace(Last(s))
    ensures Trim(s) == s
  {
    assert TrimStart(s) == s;
  }

  /** The characters at which a multi-line regular expression's `^` and `$` match:
      JavaScript's LineTerminator class. */
  predicate IsLineTerminator(c: char)
  {
    c == '\n' || c == '\r' || c == '\U{2028}' || c == '\U{2029}'
  }

  /** `s.replace(/[\s\r\n]+/g, ' ')`: every run of white space becomes one space. */
  function CollapseSpace(s: string): (r: string)
    ensures r == [] <==> s == []
    ensures s != [] && !IsSpace(s[0]) ==> r[0] == s[0]
    ensures forall i :: 0 <= i < |r| && IsSpace(r[i]) ==> r[i] == ' '
    ensures forall i, j :: 0 <= i && j == i + 1 && j < |r| ==> !IsSpace(r[i]) || !IsSpace(r[j])
    decreases |s|
  {
    if s == [] then []
    else if IsSpace(s[0]) then
      var t := TrimStart(s);
      assert s[0..] == s;
      " " + CollapseSpace(t)
    else [s[0]] + CollapseSpace(s[1..])
  }

  lemma {:induction false} CollapseWord(w: string, rest: string)
    requires NoSpace(w)
    ensures CollapseSpace(w + rest) == w + CollapseSpace(rest)
  {
    if w != [] {
      var s := w + rest;
      assert s[0] == w[0] && !IsSpace(s[0]);
      assert s[1..] == w[1..] + rest;
      assert CollapseSpace(s) == [w[0]] + CollapseSpace(w[1..] + rest);
      assert NoSpace(w[1..]) by {
        assert forall i :: 0 <= i < |w| - 1 ==> w[1..][i] == w[i + 1];
      }
      CollapseWord(w[1..], rest);
      assert [w[0]] + (w[1..] + CollapseSpace(rest)) == w + CollapseSpace(rest);
    } else {
      assert w + rest == rest;
    }
  }

  lemma CollapseLeadingSpace(t: string)
    requires t != [] && !IsSpace(t[0])
    ensures CollapseSpace(" " + t) == " " + CollapseSpace(t)
  {
    var s := " " + t;
    assert s[1..] == t;
    assert TrimStart(s) == t;
  }
  // ---------------------------------------------------------------------------
  // Line endings

  /** `chunk.replace(/\r\n/g, '\n')`, scanning from the left. */
  function NormalizeNewlines(s: string): (r: string)
    ensures |r| <= |s|
  {
    if |s| >= 2 && s[0] == '\r' && s[1] == '\n' then "\n" + NormalizeNewlines(s[2..])
    else if s == [] then []
    else [s[0]] + NormalizeNewlines(s[1..])
  }

  /** `s` with every carriage return deleted. */
  function DropCarriageReturns(s: string): (r: string)
  {
    if s == [] then []
    else if s[0] == '\r' then DropCarriageReturns(s[1..])
    else [s[0]] + DropCarriageReturns(s[1..])
  }

  /** Normalisation works piece by piece, except across a `\r` that ends one piece and a
      `\n` that starts the next. */
  lemma {:induction false} NormalizeSplit(a: string, b: string)
    requires a == [] || b == [] || Last(a) != '\r' || b[0] != '\n'
    ensures NormalizeNewlines(a + b) == NormalizeNewlines(a) + NormalizeNewlines(b)
  {
    if a == [] {
      assert a + b == b;
    } else if |a| >= 2 && a[0] == '\r' && a[1] == '\n' {
      var rest := a[2..];
      assert rest == [] || Last(rest) == Last(a);
      NormalizePairStep(a, b);
      NormalizeSplit(rest, b);
      AppendAssociative("\n", NormalizeNewlines(rest), NormalizeNewlines(b));
    } else {
      var rest := a[1..];
      assert rest == [] || Last(rest) == Last(a);
      NormalizeSingleStep(a, b);
      NormalizeSplit(rest, b);
      AppendAssociative([a[0]], NormalizeNewlines(rest), NormalizeNewlines(b));
    }
  }

  lemma AppendAssociative<T>(x: seq<T>, y: seq<T>, z: seq<T>)
    ensures x + (y + z) == x + y + z
  {
  }

  /** A leading `\r\n` of `a` is normalised on its own, before `b` is reached. */
  lemma NormalizePairStep(a: string, b: string)
    requires |a| >= 2 && a[0] == '\r' && a[1] == '\n'
    ensures NormalizeNewlines(a + b) == "\n" + NormalizeNewlines(a[2..] + b)
    ensures NormalizeNewlines(a) == "\n" + NormalizeNewlines(a[2..])
  {
    assert (a + b)[2..] == a[2..] + b;
  }

  /** Any other first character of `a` is kept on its own, unless it is a `\r` that `b`
      completes into a pair. */
  lemma NormalizeSingleStep(a: string, b: string)
    requires a != [] && !(|a| >= 2 && a[0] == '\r' && a[1] == '\n')
    requires b == [] || Last(a) != '\r' || b[0] != '\n'
    ensures NormalizeNewlines(a + b) == [a[0]] + NormalizeNewlines(a[1..] + b)
    ensures NormalizeNewlines(a) == [a[0]] + NormalizeNewlines(a[1..])
  {
    var ab := a + b;
    assert ab[0] == a[0] && ab[1..] == a[1..] + b;
    assert !(|ab| >= 2 && ab[0] == '\r' && ab[1] == '\n') by {
      if |a| >= 2 {
        assert ab[1] == a[1];
      } else if b != [] {
        assert Last(a) == a[0] && ab[1] == b[0];
      }
    }
    NormalizeKeepsFirst(ab);
    NormalizeKeepsFirst(a);
  }

  lemma NormalizeKeepsFirst(s: string)
    requires s != [] && !(|s| >= 2 && s[0] == '\r' && s[1] == '\n')
    ensures NormalizeNewlines(s) == [s[0]] + NormalizeNewlines(s[1..])
  {
  }

  /** Every `\r\n` becomes `\n`. */
  lemma CrLfBecomesLf(a: string, b: string)
    ensures NormalizeNewlines(a + "\r\n" + b) == NormalizeNewlines(a) + "\n" + NormalizeNewlines(b)
  {
    var pair := a + "\r\n";
    assert Last(pair) == '\n';
    NormalizeSplit(pair, b);
    NormalizeSplit(a, "\r\n");
    assert NormalizeNewlines("\r\n") == "\n" by {
      assert "\r\n"[2..] == [];
    }
  }

  /** A carriage return not followed by a line feed is kept. */
  lemma LoneCrKept(a: string, b: string)
    requires b == [] || b[0] != '\n'
    ensures NormalizeNewlines(a + "\r" + b) == NormalizeNewlines(a) + "\r" + NormalizeNewlines(b)
  {
    var ar := a + "\r";
    assert Last(ar) == '\r';
    NormalizeSplit(ar, b);
    NormalizeSplit(a, "\r");
    assert NormalizeNewlines("\r") == "\r";
  }

  /** Normalising only ever deletes carriage returns, so every other character
      survives in order; and text without a carriage return is left alone. */
  lemma {:induction false} NormalizeOnlyDropsCarriageReturns(s: string)
    ensures DropCarriageReturns(NormalizeNewlines(s)) == DropCarriageReturns(s)
    ensures '\r' !in s ==> NormalizeNewlines(s) == s
  {
    if |s| >= 2 && s[0] == '\r' && s[1] == '\n' {
      NormalizeOnlyDropsCarriageReturns(s[2..]);
      assert s[1..][1..] == s[2..];
    } else if s != [] {
      NormalizeOnlyDropsCarriageReturns(s[1..]);
      assert '\r' !in s ==> '\r' !in s[1..];
    }
  }
}
