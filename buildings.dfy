/** Creating buildings from text of the form "[start,end,height]".

    The pattern is "\[F,F,F]" where each field F is one or more decimal
    digits, optionally followed by one separator character and one or more
    digits. The separator is written as an unescaped regular-expression dot,
    so it matches any character but a line terminator, not only '.'. The
    pattern is searched for (not matched against the whole text), and the
    first match in the regular-expression engine's order is taken: the
    leftmost '[' that starts a match, and at each field the longest
    alternatives first, backtracking to shorter ones. Each field is then
    converted to a number, which fails for texts such as "1,2". */
module BuildingFactory {
  import opened BuildingValue

  datatype Option<T> = None | Some(value: T)

  datatype Result<T, E> = Success(value: T) | Failure(error: E)

  /** Why a text is not a building, in the order the checks are made. */
  datatype ParseError =
    | Blank                    // only whitespace, or nothing at all
    | NegativeValues           // a '-' anywhere in the text
    | NotParsable              // no match of the pattern anywhere
    | NotANumber(text: string) // a matched field that is not a decimal number
    | TooFlat                  // height zero
    | StartAfterEnd            // start greater than end

  /** The shared empty building: it stands nowhere. */
  function Empty(): (r: Building)
    ensures IsEmpty(r)
    ensures forall x :: HeightAt(r, x) == 0.0
  {
    EMPTY
  }

  // ---------------------------------------------------------------------------
  // Characters

  /** Whitespace as the platform's character test defines it: the ASCII
      controls tab to carriage return and the four separators 0x1C-0x1F, the
      space, and the Unicode space, line and paragraph separators. */
  predicate IsWhitespace(c: char) {
    || ('\t' <= c <= '\r')
    || ('\U{1C}' <= c <= '\U{1F}')
    || c == ' ' || c == '\U{A0}' || c == '\U{1680}'
    || ('\U{2000}' <= c <= '\U{200A}')
    || c == '\U{2028}' || c == '\U{2029}' || c == '\U{202F}' || c == '\U{205F}' || c == '\U{3000}'
  }

  /** Nothing but whitespace (the empty text included). */
  predicate IsBlank(s: string) {
    forall i :: 0 <= i < |s| ==> IsWhitespace(s[i])
  }

  predicate IsDigit(c: char) {
    '0' <= c <= '9'
  }

  predicate AllDigits(t: string) {
    forall i :: 0 <= i < |t| ==> IsDigit(t[i])
  }

  /** The characters the regular-expression dot does not match. */
  predicate IsLineTerminator(c: char) {
    c == '\n' || c == '\r' || c == '\U{85}' || c == '\U{2028}' || c == '\U{2029}'
  }

  /** How the separator inside a field is read: as the source writes it, an
      unescaped dot matching any character but a line terminator, or as an
      escaped dot matching only a decimal point. */
  datatype Separator = AnyCharacter | DecimalPoint

  predicate SeparatorMatches(sep: Separator, c: char) {
    match sep
    case AnyCharacter => !IsLineTerminator(c)
    case DecimalPoint => c == '.'
  }

  /** What one field of the pattern matches, read as a whole: digits,
      optionally followed by a separator and more digits. */
  ghost predicate IsField(sep: Separator, t: string) {
    || (|t| > 0 && AllDigits(t))
    || (exists k :: 0 < k < |t| - 1 && AllDigits(t[..k]) && SeparatorMatches(sep, t[k]) && AllDigits(t[k + 1..]))
  }

  // ---------------------------------------------------------------------------
  // Where a field can end

  /** The number of consecutive digits in `s` from position `p`. */
  function DigitRun(s: string, p: nat): (n: nat)
    requires p <= |s|
    ensures p + n <= |s|
    decreases |s| - p
  {
    if p < |s| && IsDigit(s[p]) then 1 + DigitRun(s, p + 1) else 0
  }

  /** The run is all digits and stops at a non-digit or at the end. */
  lemma {:induction false} DigitRunIsLongest(s: string, p: nat)
    requires p <= |s|
    ensures forall k :: p <= k < p + DigitRun(s, p) ==> IsDigit(s[k])
    ensures p + DigitRun(s, p) < |s| ==> !IsDigit(s[p + DigitRun(s, p)])
    decreases |s| - p
  {
    if p < |s| && IsDigit(s[p]) {
      DigitRunIsLongest(s, p + 1);
    }
  }

  /** A slice is all digits exactly when every position it spans holds one. */
  lemma SliceDigits(s: string, i: nat, j: nat)
    requires i <= j <= |s|
    ensures AllDigits(s[i..j]) <==> forall k :: i <= k < j ==> IsDigit(s[k])
  {
    if AllDigits(s[i..j]) {
      forall k | i <= k < j ensures IsDigit(s[k]) {
        assert s[i..j][k - i] == s[k];
      }
    }
  }

  /** A run of `n` digits from `p` is no longer than the longest one. */
  lemma {:induction false} DigitRunCovers(s: string, p: nat, n: nat)
    requires p + n <= |s|
    requires forall k :: p <= k < p + n ==> IsDigit(s[k])
    ensures n <= DigitRun(s, p)
    decreases n
  {
    if n > 0 {
      DigitRunCovers(s, p + 1, n - 1);
    }
  }

  // ---------------------------------------------------------------------------
  // Searching for the pattern
  //
  // The engine tries a field's ends in this order: the leading digits
  // longest first; for each number of leading digits, first with the
  // separator and the further digits longest first, then without the
  // separator. It takes the first end at which the rest of the pattern
  // matches. `rest` counts the fields still to come after the one being
  // matched: two for the first field, one for the second, none for the
  // third.

  /** Where a field starting at `p` ends, if the rest of the pattern can
      match after it. */
  function FieldEnd(sep: Separator, s: string, rest: nat, p: nat): Option<nat>
    requires p <= |s|
    decreases rest, 3, 0
  {
    LongestFirst(sep, s, rest, p, DigitRun(s, p))
  }

  /** Tries `len`, `len` - 1, ..., 1 leading digits from `p`. */
  function LongestFirst(sep: Separator, s: string, rest: nat, p: nat, len: nat): Option<nat>
    requires p + len <= |s|
    decreases rest, 2, len
  {
    if len == 0 then None
    else
      var r := WithLeading(sep, s, rest, p + len);
      if r.Some? then r else LongestFirst(sep, s, rest, p, len - 1)
  }

  /** Tries the ends of a field whose leading digits stop at `q`: with the
      separator and further digits, then without. */
  function WithLeading(sep: Separator, s: string, rest: nat, q: nat): Option<nat>
    requires q <= |s|
    decreases rest, 1, 0
  {
    var r := if q < |s| && SeparatorMatches(sep, s[q]) then WithFraction(sep, s, rest, q + 1, DigitRun(s, q + 1)) else None;
    if r.Some? then r else if Fits(sep, s, rest, q) then Some(q) else None
  }

  /** Tries `n`, `n` - 1, ..., 1 further digits from `r`. */
  function WithFraction(sep: Separator, s: string, rest: nat, r: nat, n: nat): Option<nat>
    requires r + n <= |s|
    decreases rest, 0, n
  {
    if n == 0 then None
    else if Fits(sep, s, rest, r + n) then Some(r + n)
    else WithFraction(sep, s, rest, r, n - 1)
  }

  /** The rest of the pattern matches after a field ending at `e`: the
      closing ']' after the last field, otherwise a ',' and the next field. */
  predicate Fits(sep: Separator, s: string, rest: nat, e: nat)
    decreases rest, 0, 0
  {
    && e < |s|
    && if rest == 0 then s[e] == ']' else s[e] == ',' && FieldEnd(sep, s, rest - 1, e + 1).Some?
  }

  /** The further digits tried lie in the run, and what is found fits. */
  lemma {:induction false} WithFractionSound(sep: Separator, s: string, rest: nat, r: nat, n: nat)
    requires r + n <= |s|
    ensures var f := WithFraction(sep, s, rest, r, n);
            f.Some? ==> r < f.value <= r + n && Fits(sep, s, rest, f.value)
    decreases n
  {
    if n > 0 {
      WithFractionSound(sep, s, rest, r, n - 1);
    }
  }

  /** Every end in the run at which the rest fits is found. */
  lemma {:induction false} WithFractionFinds(sep: Separator, s: string, rest: nat, r: nat, n: nat, e: nat)
    requires r < e <= r + n <= |s| && Fits(sep, s, rest, e)
    ensures WithFraction(sep, s, rest, r, n).Some?
    decreases n
  {
    if e < r + n {
      WithFractionFinds(sep, s, rest, r, n - 1, e);
    }
  }

  /** What is found for leading digits from `p` to `q` is a field, and the
      rest fits after it. */
  lemma WithLeadingSound(sep: Separator, s: string, rest: nat, p: nat, q: nat)
    requires p < q <= |s| && AllDigits(s[p..q])
    ensures var f := WithLeading(sep, s, rest, q);
            f.Some? ==> q <= f.value <= |s| && IsField(sep, s[p..f.value]) && Fits(sep, s, rest, f.value)
  {
    if q < |s| && SeparatorMatches(sep, s[q]) {
      var fr := WithFraction(sep, s, rest, q + 1, DigitRun(s, q + 1));
      WithFractionSound(sep, s, rest, q + 1, DigitRun(s, q + 1));
      if fr.Some? {
        DigitRunIsLongest(s, q + 1);
        SliceDigits(s, q + 1, fr.value);
        SplitField(sep, s, p, q, fr.value);
      }
    }
  }

  /** Digits, a separator and digits again make a field. */
  lemma SplitField(sep: Separator, s: string, p: nat, q: nat, e: nat)
    requires p < q && q + 1 < e <= |s|
    requires AllDigits(s[p..q]) && SeparatorMatches(sep, s[q]) && AllDigits(s[q + 1..e])
    ensures IsField(sep, s[p..e])
  {
    var t := s[p..e];
    assert t[..q - p] == s[p..q] && t[q - p] == s[q] && t[q - p + 1..] == s[q + 1..e];
  }

  /** A field whose leading digits stop at `q` is found from `q`. */
  lemma WithLeadingFinds(sep: Separator, s: string, rest: nat, p: nat, q: nat, e: nat)
    requires p < q <= e <= |s| && Fits(sep, s, rest, e)
    requires e == q || (q < |s| && SeparatorMatches(sep, s[q]) && AllDigits(s[q + 1..e]) && q + 1 < e)
    ensures WithLeading(sep, s, rest, q).Some?
  {
    if e != q {
      SliceDigits(s, q + 1, e);
      DigitRunCovers(s, q + 1, e - q - 1);
      WithFractionFinds(sep, s, rest, q + 1, DigitRun(s, q + 1), e);
    }
  }

  /** What is found for at most `len` leading digits is a field. */
  lemma {:induction false} LongestFirstSound(sep: Separator, s: string, rest: nat, p: nat, len: nat)
    requires p + len <= |s| && len <= DigitRun(s, p)
    ensures var f := LongestFirst(sep, s, rest, p, len);
            f.Some? ==> p < f.value <= |s| && IsField(sep, s[p..f.value]) && Fits(sep, s, rest, f.value)
    decreases len
  {
    if len > 0 {
      if WithLeading(sep, s, rest, p + len).Some? {
        DigitRunIsLongest(s, p);
        SliceDigits(s, p, p + len);
        WithLeadingSound(sep, s, rest, p, p + len);
      } else {
        LongestFirstSound(sep, s, rest, p, len - 1);
      }
    }
  }

  /** Trying at most `len` leading digits finds an end when `l` of them do. */
  lemma {:induction false} LongestFirstFinds(sep: Separator, s: string, rest: nat, p: nat, len: nat, l: nat)
    requires 0 < l <= len && p + len <= |s| && WithLeading(sep, s, rest, p + l).Some?
    ensures LongestFirst(sep, s, rest, p, len).Some?
    decreases len
  {
    if l < len {
      LongestFirstFinds(sep, s, rest, p, len - 1, l);
    }
  }

  /** What the search finds ends a field, and the rest matches after it. */
  lemma SearchSound(sep: Separator, s: string, rest: nat, p: nat)
    requires p <= |s| && FieldEnd(sep, s, rest, p).Some?
    ensures var e := FieldEnd(sep, s, rest, p).value;
            p < e <= |s| && IsField(sep, s[p..e]) && Fits(sep, s, rest, e)
  {
    LongestFirstSound(sep, s, rest, p, DigitRun(s, p));
  }

  /** Whenever a field ends somewhere the rest matches, the search finds an
      end. */
  lemma SearchFound(sep: Separator, s: string, rest: nat, p: nat, e: nat)
    requires p < e <= |s| && IsField(sep, s[p..e]) && Fits(sep, s, rest, e)
    ensures FieldEnd(sep, s, rest, p).Some?
  {
    var l := LeadingDigits(sep, s, p, e);
    SliceDigits(s, p, p + l);
    WithLeadingFinds(sep, s, rest, p, p + l, e);
    DigitRunCovers(s, p, l);
    LongestFirstFinds(sep, s, rest, p, DigitRun(s, p), l);
  }

  /** A field from `p` to `e` starts with l > 0 digits, after which it
      either ends or goes on with a separator and digits. */
  lemma LeadingDigits(sep: Separator, s: string, p: nat, e: nat) returns (l: nat)
    requires p < e <= |s| && IsField(sep, s[p..e])
    ensures 0 < l <= e - p && AllDigits(s[p..p + l])
    ensures p + l == e || (p + l < |s| && SeparatorMatches(sep, s[p + l]) && AllDigits(s[p + l + 1..e]) && p + l + 1 < e)
  {
    var t := s[p..e];
    l := FieldParts(sep, t);
    assert t[..l] == s[p..p + l];
    if l < |t| {
      assert t[l] == s[p + l] && t[l + 1..] == s[p + l + 1..e];
    }
  }

  /** A field is its leading digits, then either nothing or the separator
      and more digits. */
  lemma FieldParts(sep: Separator, t: string) returns (l: nat)
    requires IsField(sep, t)
    ensures 0 < l <= |t| && AllDigits(t[..l])
    ensures l == |t| || (l + 1 < |t| && SeparatorMatches(sep, t[l]) && AllDigits(t[l + 1..]))
  {
    if |t| > 0 && AllDigits(t) {
      l := |t|;
      assert t[..l] == t;
    } else {
      l :| 0 < l < |t| - 1 && AllDigits(t[..l]) && SeparatorMatches(sep, t[l]) && AllDigits(t[l + 1..]);
    }
  }

  /** Where a match lies: its '[', its two ',' and its ']'. */
  datatype Match = Match(open: nat, comma1: nat, comma2: nat, close: nat)

  /** `m` is a match of the pattern in `s`. */
  ghost predicate Matches(sep: Separator, s: string, m: Match) {
    && Ordered(s, m)
    && s[m.open] == '[' && s[m.comma1] == ',' && s[m.comma2] == ',' && s[m.close] == ']'
    && IsField(sep, s[m.open + 1..m.comma1])
    && IsField(sep, s[m.comma1 + 1..m.comma2])
    && IsField(sep, s[m.comma2 + 1..m.close])
  }

  /** The four positions of a match lie in order within `s`. */
  predicate Ordered(s: string, m: Match) {
    m.open < m.comma1 < m.comma2 < m.close < |s|
  }

  /** The match the engine reports when it tries the pattern at position `i`:
      the first field end that lets the rest match, then likewise for the
      second and the third field. What it reports is a match. */
  function MatchAt(sep: Separator, s: string, i: nat): (r: Option<Match>)
    requires i <= |s|
    ensures r.Some? ==> r.value.open == i && Matches(sep, s, r.value)
  {
    if i < |s| && s[i] == '[' && FieldEnd(sep, s, 2, i + 1).Some? then
      var c1 := FieldEnd(sep, s, 2, i + 1).value;
      SearchSound(sep, s, 2, i + 1);
      var c2 := FieldEnd(sep, s, 1, c1 + 1).value;
      SearchSound(sep, s, 1, c1 + 1);
      var c3 := FieldEnd(sep, s, 0, c2 + 1).value;
      SearchSound(sep, s, 0, c2 + 1);
      Some(Match(i, c1, c2, c3))
    else
      None
  }

  /** The engine reports a match at `i` whenever one starts there. */
  lemma MatchAtComplete(sep: Separator, s: string, i: nat)
    requires i <= |s|
    ensures MatchAt(sep, s, i).None? ==> forall m: Match :: m.open == i ==> !Matches(sep, s, m)
  {
    forall m: Match | m.open == i ensures MatchAt(sep, s, i).None? ==> !Matches(sep, s, m) {
      MatchHasFirstField(sep, s, m);
    }
  }

  /** Every match is found by the field search from its '['. */
  lemma MatchHasFirstField(sep: Separator, s: string, m: Match)
    ensures Matches(sep, s, m) ==> FieldEnd(sep, s, 2, m.open + 1).Some?
  {
    if Matches(sep, s, m) {
      SearchFound(sep, s, 0, m.comma2 + 1, m.close);
      SearchFound(sep, s, 1, m.comma1 + 1, m.comma2);
      SearchFound(sep, s, 2, m.open + 1, m.comma1);
    }
  }

  /** The first match the engine reports trying positions `i`, `i` + 1, ...
      in turn. */
  function FindFrom(sep: Separator, s: string, i: nat): (r: Option<Match>)
    requires i <= |s|
    ensures r.Some? ==> Ordered(s, r.value) && i <= r.value.open
    decreases |s| - i
  {
    if i == |s| then None
    else if MatchAt(sep, s, i).Some? then MatchAt(sep, s, i)
    else FindFrom(sep, s, i + 1)
  }

  /** What is found from `i` on is a match. */
  lemma {:induction false} FindFromSound(sep: Separator, s: string, i: nat)
    requires i <= |s|
    ensures FindFrom(sep, s, i).Some? ==> Matches(sep, s, FindFrom(sep, s, i).value)
    decreases |s| - i
  {
    if i < |s| {
      if MatchAt(sep, s, i).None? {
        FindFromSound(sep, s, i + 1);
      }
    }
  }

  /** No match starts between `i` and what is found, and nothing is found
      only when no match starts at `i` or after. */
  lemma {:induction false} FindFromLeftmost(sep: Separator, s: string, i: nat)
    requires i <= |s|
    ensures var r := FindFrom(sep, s, i);
            && (r.Some? ==> forall m: Match :: i <= m.open < r.value.open ==> !Matches(sep, s, m))
            && (r.None? ==> forall m: Match :: i <= m.open ==> !Matches(sep, s, m))
    decreases |s| - i
  {
    if i < |s| {
      MatchAtComplete(sep, s, i);
      if MatchAt(sep, s, i).None? {
        FindFromLeftmost(sep, s, i + 1);
      }
    }
  }

  /** The leftmost match of the pattern in `s`, if there is one. */
  function Find(sep: Separator, s: string): (r: Option<Match>)
    ensures r.Some? ==> Ordered(s, r.value)
  {
    FindFrom(sep, s, 0)
  }

  /** What is found is a match. */
  lemma FindSound(sep: Separator, s: string)
    ensures Find(sep, s).Some? ==> Matches(sep, s, Find(sep, s).value)
  {
    FindFromSound(sep, s, 0);
  }

  /** What is found is the leftmost match, and nothing is found only when
      there is no match at all. */
  lemma FindLeftmost(sep: Separator, s: string)
    ensures Find(sep, s).Some? ==> forall m :: Matches(sep, s, m) ==> Find(sep, s).value.open <= m.open
    ensures Find(sep, s).None? <==> forall m :: !Matches(sep, s, m)
  {
    FindFromLeftmost(sep, s, 0);
    FindSound(sep, s);
  }

  // ---------------------------------------------------------------------------
  // Reading a matched field as a number

  function DigitValue(c: char): nat
    requires IsDigit(c)
  {
    (c as int - '0' as int) as nat
  }

  /** The value of a run of decimal digits, most significant first. */
  function DigitsValue(t: string): nat
    requires AllDigits(t)
  {
    if t == [] then 0 else DigitsValue(t[..|t| - 1]) * 10 + DigitValue(t[|t| - 1])
  }

  /** The value of the digits after a decimal point: 0.d1d2d3... */
  function FractionValue(t: string): (r: real)
    requires AllDigits(t)
    ensures 0.0 <= r <= 1.0
  {
    if t == [] then 0.0 else (DigitValue(t[0]) as real + FractionValue(t[1..])) / 10.0
  }

  /** `x` times ten to the `n`. */
  function Scale(x: real, n: nat): (r: real)
    ensures x >= 0.0 ==> r >= 0.0
  {
    if n == 0 then x else 10.0 * Scale(x, n - 1)
  }

  /** The platform's conversion of text to a floating-point number, on the
      texts a field can hold, with exact arithmetic: digits are an integer;
      digits, '.' and digits are a decimal fraction; digits, 'e' or 'E' and
      digits are an integer times a power of ten; anything else is not a
      number. */
  function FieldValue(t: string): (r: Option<real>)
    ensures r.Some? ==> r.value >= 0.0
  {
    if |t| > 0 && AllDigits(t) then Some(DigitsValue(t) as real)
    else
      var k := DigitRun(t, 0);
      if 0 < k < |t| - 1 && AllDigits(t[k + 1..]) then
        DigitRunIsLongest(t, 0);
        SliceDigits(t, 0, k);
        var whole := DigitsValue(t[..k]) as real;
        var fraction := t[k + 1..];
        if t[k] == '.' then Some(whole + FractionValue(fraction))
        else if t[k] == 'e' || t[k] == 'E' then Some(Scale(whole, DigitsValue(fraction)))
        else None
      else
        None
  }

  /** With the separator read as a decimal point every field is a number. */
  lemma DecimalFieldIsNumber(t: string)
    requires IsField(DecimalPoint, t)
    ensures FieldValue(t).Some?
  {
    var k := FieldParts(DecimalPoint, t);
    if k < |t| {
      DigitRunIsLongest(t, 0);
      SliceDigits(t, 0, k);
      DigitRunCovers(t, 0, k);
    } else {
      assert t[..k] == t;
    }
  }

  // ---------------------------------------------------------------------------
  // Creating a building

  /** Creates a building from `s`, reading the pattern's separator as `sep`.
      The checks are made in this order: blank text, a '-' anywhere, no
      match, a field that is not a number (start, end, height in turn), a
      height of zero, a start after the end. */
  function CreateWith(sep: Separator, s: string): Result<Building, ParseError> {
    if IsBlank(s) then Failure(Blank)
    else if '-' in s then Failure(NegativeValues)
    else
      match Find(sep, s)
      case None => Failure(NotParsable)
      case Some(m) => FromFields(s[m.open + 1..m.comma1], s[m.comma1 + 1..m.comma2], s[m.comma2 + 1..m.close])
  }

  /** Converts the three matched fields and checks the building they make. */
  function FromFields(startText: string, endText: string, heightText: string): Result<Building, ParseError> {
    if FieldValue(startText).None? then Failure(NotANumber(startText))
    else if FieldValue(endText).None? then Failure(NotANumber(endText))
    else if FieldValue(heightText).None? then Failure(NotANumber(heightText))
    else
      var start := FieldValue(startText).value;
      var end := FieldValue(endText).value;
      var height := FieldValue(heightText).value;
      if height <= 0.0 then Failure(TooFlat)
      else if start > end then Failure(StartAfterEnd)
      else Success(Building(start, end, height))
  }

  /** Creation as written: the separator is an unescaped dot. */
  function Create(s: string): Result<Building, ParseError> {
    CreateWith(AnyCharacter, s)
  }

  /** Creation with the separator escaped, so that it is a decimal point. */
  function CreateWithEscapedDot(s: string): Result<Building, ParseError> {
    CreateWith(DecimalPoint, s)
  }

  // ---------------------------------------------------------------------------
  // What creation promises

  /** A created building is well formed, stands on the ground at a
      non-negative start and is taller than zero. */
  lemma CreatedIsValid(sep: Separator, s: string)
    ensures var r := CreateWith(sep, s);
            r.Success? ==> WellFormed(r.value) && r.value.height > 0.0 && r.value.start >= 0.0
  {
  }

  /** Each error is reported exactly when the checks before it pass and its
      own fails. */
  lemma CreateChecksInOrder(sep: Separator, s: string)
    ensures CreateWith(sep, s) == Failure(Blank) <==> IsBlank(s)
    ensures CreateWith(sep, s) == Failure(NegativeValues) <==> !IsBlank(s) && '-' in s
    ensures CreateWith(sep, s) == Failure(NotParsable) <==>
              !IsBlank(s) && '-' !in s && forall m :: !Matches(sep, s, m)
    ensures CreateWith(sep, s).Success? ==>
              !IsBlank(s) && '-' !in s && exists m :: Matches(sep, s, m)
  {
    FindLeftmost(sep, s);
    FindSound(sep, s);
  }

  /** With the separator escaped, a matched field is always a number. */
  lemma EscapedDotFieldsAreNumbers(s: string)
    ensures !CreateWithEscapedDot(s).Failure? || !CreateWithEscapedDot(s).error.NotANumber?
  {
    var r := Find(DecimalPoint, s);
    FindSound(DecimalPoint, s);
    if !IsBlank(s) && '-' !in s && r.Some? {
      var m := r.value;
      CreateWithMatch(DecimalPoint, s, m);
      DecimalMatchIsNumbers(s, m);
      assert CreateWithEscapedDot(s) == FromFields(s[m.open + 1..m.comma1], s[m.comma1 + 1..m.comma2], s[m.comma2 + 1..m.close]);
    }
  }

  /** The three fields of a match with a decimal point are numbers. */
  lemma DecimalMatchIsNumbers(s: string, m: Match)
    requires Matches(DecimalPoint, s, m)
    ensures var r := FromFields(s[m.open + 1..m.comma1], s[m.comma1 + 1..m.comma2], s[m.comma2 + 1..m.close]);
            !r.Failure? || !r.error.NotANumber?
  {
    var x, y, z := s[m.open + 1..m.comma1], s[m.comma1 + 1..m.comma2], s[m.comma2 + 1..m.close];
    DecimalFieldIsNumber(x);
    DecimalFieldIsNumber(y);
    DecimalFieldIsNumber(z);
    FromNumbers(x, y, z);
  }

  /** Fields that are all numbers make a building or fail one of its checks. */
  lemma FromNumbers(x: string, y: string, z: string)
    requires FieldValue(x).Some? && FieldValue(y).Some? && FieldValue(z).Some?
    ensures FromFields(x, y, z).Failure? ==> FromFields(x, y, z).error in {TooFlat, StartAfterEnd}
  {
  }

  /** When `s` opens with its only '[', the engine's first attempt decides. */
  lemma FindAtFirstBracket(sep: Separator, s: string)
    requires |s| > 0 && s[0] == '['
    requires forall j :: 0 < j < |s| ==> s[j] != '['
    ensures Find(sep, s) == MatchAt(sep, s, 0)
  {
    FindFromSound(sep, s, 1);
  }

  /** The text "[a,b,h]" for three fields that hold no '[', ',' or ']'. */
  function Bracketed(a: string, b: string, h: string): string {
    "[" + a + "," + b + "," + h + "]"
  }

  /** The character at each position of "[a,b,h]". */
  lemma BracketedAt(a: string, b: string, h: string, i: nat)
    requires i < |Bracketed(a, b, h)|
    ensures var s := Bracketed(a, b, h);
            && (i == 0 ==> s[i] == '[')
            && (0 < i <= |a| ==> s[i] == a[i - 1])
            && (i == |a| + 1 ==> s[i] == ',')
            && (|a| + 1 < i <= |a| + |b| + 1 ==> s[i] == b[i - |a| - 2])
            && (i == |a| + |b| + 2 ==> s[i] == ',')
            && (|a| + |b| + 2 < i <= |a| + |b| + |h| + 2 ==> s[i] == h[i - |a| - |b| - 3])
            && (i == |a| + |b| + |h| + 3 ==> s[i] == ']')
  {
  }

  /** The fields of "[a,b,h]" lie between its delimiters. */
  lemma BracketedFields(a: string, b: string, h: string)
    ensures var s := Bracketed(a, b, h);
            && s[1..|a| + 1] == a
            && s[|a| + 2..|a| + |b| + 2] == b
            && s[|a| + |b| + 3..|a| + |b| + |h| + 3] == h
  {
  }

  /** No character of `t` is one of the pattern's delimiters. */
  predicate NoDelimiters(t: string) {
    forall i :: 0 <= i < |t| ==> t[i] != '[' && t[i] != ',' && t[i] != ']'
  }

  /** In "[a,b,h]" the delimiters stand only where the text puts them. */
  lemma BracketedDelimiters(a: string, b: string, h: string, j: nat)
    requires NoDelimiters(a) && NoDelimiters(b) && NoDelimiters(h)
    requires j < |Bracketed(a, b, h)|
    ensures var s := Bracketed(a, b, h);
            && (s[j] == '[' ==> j == 0)
            && (s[j] == ',' ==> j == |a| + 1 || j == |a| + |b| + 2)
            && (s[j] == ']' ==> j == |a| + |b| + |h| + 3)
  {
    BracketedAt(a, b, h, j);
  }

  /** "[a,b,h]" has one match: the one whose fields are `a`, `b` and `h`. */
  lemma BracketedOnlyMatch(sep: Separator, a: string, b: string, h: string, m: Match)
    requires NoDelimiters(a) && NoDelimiters(b) && NoDelimiters(h)
    requires Matches(sep, Bracketed(a, b, h), m)
    ensures m == Match(0, |a| + 1, |a| + |b| + 2, |a| + |b| + |h| + 3)
  {
    BracketedDelimiters(a, b, h, m.open);
    BracketedDelimiters(a, b, h, m.comma1);
    BracketedDelimiters(a, b, h, m.comma2);
    BracketedDelimiters(a, b, h, m.close);
  }

  /** The engine reports the match of "[a,b,h]" whose fields are `a`, `b`
      and `h`. */
  lemma BracketedMatch(sep: Separator, a: string, b: string, h: string)
    requires IsField(sep, a) && IsField(sep, b) && IsField(sep, h)
    requires NoDelimiters(a) && NoDelimiters(b) && NoDelimiters(h)
    ensures Find(sep, Bracketed(a, b, h)) == Some(Match(0, |a| + 1, |a| + |b| + 2, |a| + |b| + |h| + 3))
  {
    var s := Bracketed(a, b, h);
    var m0 := Match(0, |a| + 1, |a| + |b| + 2, |a| + |b| + |h| + 3);
    BracketedFields(a, b, h);
    assert Matches(sep, s, m0);
    FindLeftmost(sep, s);
    FindSound(sep, s);
    BracketedOnlyMatch(sep, a, b, h, Find(sep, s).value);
  }

  // ---------------------------------------------------------------------------
  // Round trip through the text form

  /** The decimal digits of `n`, most significant first. */
  function NatText(n: nat): (t: string)
    ensures |t| > 0
  {
    (if n < 10 then "" else NatText(n / 10)) + [('0' as int + n % 10) as char]
  }

  lemma {:induction false} NatTextDigits(n: nat)
    ensures AllDigits(NatText(n)) && DigitsValue(NatText(n)) == n
  {
    var t := NatText(n);
    if n >= 10 {
      NatTextDigits(n / 10);
    }
    assert t[..|t| - 1] == if n < 10 then "" else NatText(n / 10);
  }

  /** The text "[start,end,height]" of three whole numbers. */
  function Format(start: nat, end: nat, height: nat): string {
    Bracketed(NatText(start), NatText(end), NatText(height))
  }

  /** Digits are neither blank nor a '-'. */
  lemma BracketedDigits(a: string, b: string, h: string)
    requires AllDigits(a) && AllDigits(b) && AllDigits(h)
    ensures !IsBlank(Bracketed(a, b, h)) && '-' !in Bracketed(a, b, h)
    ensures NoDelimiters(a) && NoDelimiters(b) && NoDelimiters(h)
  {
    var s := Bracketed(a, b, h);
    assert !IsWhitespace(s[0]);
    forall j | 0 <= j < |s| ensures s[j] != '-' {
      BracketedAt(a, b, h, j);
    }
  }

  /** "[a,b,h]" is created from its three fields. */
  lemma CreateBracketed(sep: Separator, a: string, b: string, h: string)
    requires IsField(sep, a) && IsField(sep, b) && IsField(sep, h)
    requires NoDelimiters(a) && NoDelimiters(b) && NoDelimiters(h)
    requires !IsBlank(Bracketed(a, b, h)) && '-' !in Bracketed(a, b, h)
    ensures CreateWith(sep, Bracketed(a, b, h)) == FromFields(a, b, h)
  {
    var m := Match(0, |a| + 1, |a| + |b| + 2, |a| + |b| + |h| + 3);
    BracketedMatch(sep, a, b, h);
    BracketedFields(a, b, h);
    CreateFromFields(sep, Bracketed(a, b, h), m, a, b, h);
  }

  /** A text that passes the first two checks is created from the fields of
      the match the engine reports. */
  lemma CreateFromFields(sep: Separator, s: string, m: Match, a: string, b: string, h: string)
    requires !IsBlank(s) && '-' !in s && Find(sep, s) == Some(m)
    requires m.open < m.comma1 < m.comma2 < m.close < |s|
    requires s[m.open + 1..m.comma1] == a && s[m.comma1 + 1..m.comma2] == b && s[m.comma2 + 1..m.close] == h
    ensures CreateWith(sep, s) == FromFields(a, b, h)
  {
    CreateWithMatch(sep, s, m);
  }

  lemma CreateWithMatch(sep: Separator, s: string, m: Match)
    requires !IsBlank(s) && '-' !in s && Find(sep, s) == Some(m)
    requires m.open < m.comma1 < m.comma2 < m.close < |s|
    ensures CreateWith(sep, s) == FromFields(s[m.open + 1..m.comma1], s[m.comma1 + 1..m.comma2], s[m.comma2 + 1..m.close])
  {
  }

  /** Creating from the text of three whole numbers gives back the building
      they describe, or the check it fails. */
  lemma CreateFormatted(sep: Separator, start: nat, end: nat, height: nat)
    ensures CreateWith(sep, Format(start, end, height)) ==
              if height == 0 then Failure(TooFlat)
              else if start > end then Failure(StartAfterEnd)
              else Success(Building(start as real, end as real, height as real))
  {
    var a, b, h := NatText(start), NatText(end), NatText(height);
    NatTextDigits(start);
    NatTextDigits(end);
    NatTextDigits(height);
    BracketedDigits(a, b, h);
    CreateBracketed(sep, a, b, h);
  }

  /** A start equal to the end passes every check, and the building made is
      empty: it stands nowhere. */
  lemma CreateEqualEnds(sep: Separator, x: nat, height: nat)
    requires height > 0
    ensures CreateWith(sep, Format(x, x, height)).Success?
    ensures IsEmpty(CreateWith(sep, Format(x, x, height)).value)
  {
    CreateFormatted(sep, x, x, height);
  }
}
