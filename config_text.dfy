/** The text helpers the patch-match configuration reader relies on:
    StringTrim, CSVToVector<std::string> and boost::lexical_cast<int>. */
module ConfigText {

  datatype Option<T> = None | Some(value: T)

  // ---------------------------------------------------------------------
  // StringTrim

  /** std::isspace in the C locale. */
  predicate IsSpace(c: char) {
    c == ' ' || c == '\t' || c == '\n' || c == '\U{000B}' || c == '\U{000C}' || c == '\r'
  }

  predicate AllSpace(s: string) {
    forall i :: 0 <= i < |s| ==> IsSpace(s[i])
  }

  /** A string without white space at either end. */
  predicate Trimmed(s: string) {
    |s| == 0 || (!IsSpace(s[0]) && !IsSpace(s[|s| - 1]))
  }

  /** Erasing the leading white space: the longest all-space prefix goes. */
  function TrimLeft(s: string): (r: string)
    ensures |r| <= |s| && r == s[|s| - |r|..]
    ensures AllSpace(s[..|s| - |r|])
    ensures |r| > 0 ==> !IsSpace(r[0])
  {
    if |s| > 0 && IsSpace(s[0]) then TrimLeft(s[1..]) else s
  }

  /** Erasing the trailing white space: the longest all-space suffix goes. */
  function TrimRight(s: string): (r: string)
    ensures |r| <= |s| && r == s[..|r|]
    ensures AllSpace(s[|r|..])
    ensures |r| > 0 ==> !IsSpace(r[|r| - 1])
  {
    if |s| > 0 && IsSpace(s[|s| - 1]) then TrimRight(s[..|s| - 1]) else s
  }

  /** StringTrim: left trim, then right trim. */
  function Trim(s: string): string {
    TrimRight(TrimLeft(s))
  }

  lemma TrimRightKeepsStart(s: string)
    requires |s| > 0 && !IsSpace(s[0])
    ensures |TrimRight(s)| > 0 && TrimRight(s)[0] == s[0]
  {
  }

  /** The trimmed string is a middle part of the input with only white space
      cut from both ends, and has no white space at either end. */
  lemma TrimCutsOnlySpace(s: string)
    ensures Trimmed(Trim(s))
    ensures exists i :: 0 <= i <= |s| - |Trim(s)| && Trim(s) == s[i..i + |Trim(s)|] &&
                        AllSpace(s[..i]) && AllSpace(s[i + |Trim(s)|..])
  {
    var l := TrimLeft(s);
    var i := |s| - |l|;
    if |l| > 0 {
      TrimRightKeepsStart(l);
    }
    assert Trim(s) == s[i..i + |Trim(s)|];
    assert s[i + |Trim(s)|..] == l[|Trim(s)|..];
  }

  lemma TrimLeftOfUnpadded(t: string)
    requires |t| == 0 || !IsSpace(t[0])
    ensures TrimLeft(t) == t
  {
  }

  lemma {:induction false} TrimLeftOfPadded(pad: string, t: string)
    requires AllSpace(pad) && (|t| == 0 || !IsSpace(t[0]))
    ensures TrimLeft(pad + t) == t
    decreases |pad|
  {
    if |pad| == 0 {
      assert pad + t == t;
      TrimLeftOfUnpadded(t);
    } else {
      assert (pad + t)[1..] == pad[1..] + t;
      TrimLeftOfPadded(pad[1..], t);
    }
  }

  lemma {:induction false} TrimRightOfPadded(t: string, pad: string)
    requires AllSpace(pad) && (|t| == 0 || !IsSpace(t[|t| - 1]))
    ensures TrimRight(t + pad) == t
    decreases |pad|
  {
    if |pad| == 0 {
      assert t + pad == t;
    } else {
      assert (t + pad)[..|t + pad| - 1] == t + pad[..|pad| - 1];
      TrimRightOfPadded(t, pad[..|pad| - 1]);
    }
  }

  /** Trimming a string that is white space around an unpadded core gives
      back that core. */
  lemma TrimOfPadded(left: string, t: string, right: string)
    requires AllSpace(left) && AllSpace(right) && |t| > 0 && Trimmed(t)
    ensures Trim(left + t + right) == t
  {
    assert left + t + right == left + (t + right);
    TrimLeftOfPadded(left, t + right);
    TrimRightOfPadded(t, right);
  }

  /** Trimming twice trims nothing more. */
  lemma TrimIdempotent(s: string)
    ensures Trim(Trim(s)) == Trim(s)
  {
    var t := Trim(s);
    TrimCutsOnlySpace(s);
    if |t| > 0 {
      TrimLeftOfUnpadded(t);
    }
  }

  // ---------------------------------------------------------------------
  // CSVToVector<std::string>

  /** The delimiters of CSVToVector. */
  predicate IsSeparator(c: char) {
    c == ',' || c == ';'
  }

  predicate NoSeparator(s: string) {
    forall i :: 0 <= i < |s| ==> !IsSeparator(s[i])
  }

  /** Split at every ',' or ';': the pieces between the delimiters, in
      order; there is always at least one. */
  function Fields(s: string): (r: seq<string>)
    ensures |r| >= 1
  {
    if |s| == 0 then [[]]
    else if IsSeparator(s[0]) then [[]] + Fields(s[1..])
    else
      var t := Fields(s[1..]);
      [[s[0]] + t[0]] + t[1..]
  }

  /** No field holds a delimiter. */
  lemma {:induction false} FieldsHaveNoSeparator(s: string)
    ensures forall k :: 0 <= k < |Fields(s)| ==> NoSeparator(Fields(s)[k])
    decreases |s|
  {
    if |s| > 0 {
      var t := Fields(s[1..]);
      FieldsHaveNoSeparator(s[1..]);
      if IsSeparator(s[0]) {
        assert forall k :: 1 <= k < |t| + 1 ==> ([[]] + t)[k] == t[k - 1];
      } else {
        var first := [s[0]] + t[0];
        forall i | 0 <= i < |first|
          ensures !IsSeparator(first[i])
        {
          if i > 0 {
            assert first[i] == t[0][i - 1];
          }
        }
        assert forall k :: 1 <= k < |t| ==> ([first] + t[1..])[k] == t[k];
      }
    }
  }

  /** Every field trimmed. */
  function TrimAll(fs: seq<string>): seq<string> {
    seq(|fs|, j requires 0 <= j < |fs| => Trim(fs[j]))
  }

  /** The non-empty strings of `vs`, in order. */
  function NonEmpty(vs: seq<string>): seq<string> {
    if |vs| == 0 then []
    else if |vs[0]| == 0 then NonEmpty(vs[1..])
    else [vs[0]] + NonEmpty(vs[1..])
  }

  /** Every string kept is non-empty and one of the input. */
  lemma {:induction false} NonEmptyKeepsNonEmpty(vs: seq<string>)
    ensures forall k :: 0 <= k < |NonEmpty(vs)| ==> |NonEmpty(vs)[k]| > 0 && NonEmpty(vs)[k] in vs
    decreases |vs|
  {
    if |vs| > 0 {
      var rest := NonEmpty(vs[1..]);
      NonEmptyKeepsNonEmpty(vs[1..]);
      assert forall k :: 0 <= k < |rest| ==> rest[k] in vs[1..] ==> rest[k] in vs;
      if |vs[0]| > 0 {
        assert forall k :: 1 <= k < |rest| + 1 ==> ([vs[0]] + rest)[k] == rest[k - 1];
      }
    }
  }

  /** CSVToVector<std::string>: split on ',' and ';', trim every piece and
      keep the non-empty ones, in order. */
  function CsvToVector(s: string): seq<string> {
    NonEmpty(TrimAll(Fields(s)))
  }

  /** A field without delimiters trims to a value without delimiters or
      white space at its ends. */
  lemma TrimOfFieldIsClean(f: string)
    requires NoSeparator(f)
    ensures Trimmed(Trim(f)) && NoSeparator(Trim(f))
  {
    TrimCutsOnlySpace(f);
    var i :| 0 <= i <= |f| - |Trim(f)| && Trim(f) == f[i..i + |Trim(f)|];
    assert forall c :: 0 <= c < |Trim(f)| ==> Trim(f)[c] == f[i + c];
  }

  /** Every value is non-empty, trimmed and free of delimiters. */
  lemma CsvValuesAreClean(s: string)
    ensures forall k :: 0 <= k < |CsvToVector(s)| ==>
      |CsvToVector(s)[k]| > 0 && Trimmed(CsvToVector(s)[k]) && NoSeparator(CsvToVector(s)[k])
  {
    var fs := Fields(s);
    var ts := TrimAll(fs);
    var r := CsvToVector(s);
    FieldsHaveNoSeparator(s);
    forall j | 0 <= j < |ts|
      ensures Trimmed(ts[j]) && NoSeparator(ts[j])
    {
      TrimOfFieldIsClean(fs[j]);
    }
    NonEmptyKeepsNonEmpty(ts);
    forall k | 0 <= k < |r|
      ensures Trimmed(r[k]) && NoSeparator(r[k])
    {
      var j :| 0 <= j < |ts| && ts[j] == r[k];
    }
  }

  lemma {:induction false} FieldsOfPlain(a: string)
    requires NoSeparator(a)
    ensures Fields(a) == [a]
    decreases |a|
  {
    if |a| > 0 {
      FieldsOfPlain(a[1..]);
      assert [a[0]] + a[1..] == a;
    }
  }

  /** How Fields takes the first character. */
  lemma FieldsCons(c: char, rest: string)
    ensures Fields([c] + rest) ==
      if IsSeparator(c) then [[]] + Fields(rest) else [[c] + Fields(rest)[0]] + Fields(rest)[1..]
  {
    assert ([c] + rest)[0] == c && ([c] + rest)[1..] == rest;
  }

  lemma ConsAssoc<T>(x: T, t: seq<T>, f: seq<T>)
    ensures [x] + (t + f) == ([x] + t) + f
  {
  }

  /** The step of FieldsOfJoin for a delimiter in front of a joined tail. */
  lemma FieldsOfJoinSeparatorStep(c: char, tail: string, rest: string, b: string)
    requires IsSeparator(c) && Fields(rest) == Fields(tail) + Fields(b)
    ensures Fields([c] + rest) == Fields([c] + tail) + Fields(b)
  {
    FieldsCons(c, rest);
    FieldsCons(c, tail);
    ConsAssoc([], Fields(tail), Fields(b));
  }

  /** A character put in front of the first of `t + fb`. */
  lemma PrefixFirst(c: char, t: seq<string>, fb: seq<string>)
    requires |t| >= 1
    ensures [[c] + (t + fb)[0]] + (t + fb)[1..] == ([[c] + t[0]] + t[1..]) + fb
  {
    var u := t + fb;
    assert u[0] == t[0] && u[1..] == t[1..] + fb;
    ConsAssoc([c] + t[0], t[1..], fb);
  }

  /** The step of FieldsOfJoin for another character in front of a joined
      tail: it goes to the front of the first field. */
  lemma FieldsOfJoinPlainStep(c: char, tail: string, rest: string, b: string)
    requires !IsSeparator(c) && Fields(rest) == Fields(tail) + Fields(b)
    ensures Fields([c] + rest) == Fields([c] + tail) + Fields(b)
  {
    FieldsCons(c, rest);
    FieldsCons(c, tail);
    PrefixFirst(c, Fields(tail), Fields(b));
  }

  /** A delimiter splits the fields of what precedes it from the fields of
      what follows it. */
  lemma {:induction false} FieldsOfJoin(a: string, d: char, b: string)
    requires IsSeparator(d)
    ensures Fields(a + [d] + b) == Fields(a) + Fields(b)
    decreases |a|
  {
    if |a| == 0 {
      assert a + [d] + b == [d] + b;
      FieldsCons(d, b);
    } else {
      var rest := a[1..] + [d] + b;
      assert a + [d] + b == [a[0]] + rest;
      assert a == [a[0]] + a[1..];
      FieldsOfJoin(a[1..], d, b);
      if IsSeparator(a[0]) {
        FieldsOfJoinSeparatorStep(a[0], a[1..], rest, b);
      } else {
        FieldsOfJoinPlainStep(a[0], a[1..], rest, b);
      }
    }
  }

  lemma TrimAllOfJoin(f: seq<string>, g: seq<string>)
    ensures TrimAll(f + g) == TrimAll(f) + TrimAll(g)
  {
  }

  lemma {:induction false} NonEmptyOfJoin(f: seq<string>, g: seq<string>)
    ensures NonEmpty(f + g) == NonEmpty(f) + NonEmpty(g)
    decreases |f|
  {
    if |f| == 0 {
      assert f + g == g;
    } else {
      assert (f + g)[0] == f[0] && (f + g)[1..] == f[1..] + g;
      NonEmptyOfJoin(f[1..], g);
    }
  }

  /** A value list joined by a delimiter splits back into the values of each
      side. */
  lemma CsvOfJoin(a: string, d: char, b: string)
    requires IsSeparator(d)
    ensures CsvToVector(a + [d] + b) == CsvToVector(a) + CsvToVector(b)
  {
    FieldsOfJoin(a, d, b);
    TrimAllOfJoin(Fields(a), Fields(b));
    NonEmptyOfJoin(TrimAll(Fields(a)), TrimAll(Fields(b)));
  }

  /** Text without delimiters is one value, its trimmed self, unless it is
      only white space. */
  lemma CsvOfPlain(a: string)
    requires NoSeparator(a)
    ensures CsvToVector(a) == if |Trim(a)| == 0 then [] else [Trim(a)]
  {
    FieldsOfPlain(a);
    assert TrimAll([a]) == [Trim(a)];
    assert [Trim(a)][1..] == [];
    assert NonEmpty([Trim(a)][1..]) == [];
  }

  // ---------------------------------------------------------------------
  // boost::lexical_cast<int>

  const MinInt32 := -0x8000_0000
  const MaxInt32 := 0x7fff_ffff

  predicate IsDigit(c: char) {
    '0' <= c <= '9'
  }

  predicate AllDigits(s: string) {
    forall i :: 0 <= i < |s| ==> IsDigit(s[i])
  }

  /** The decimal value of a digit string, most significant digit first. */
  function DigitsValue(s: string): nat
    requires AllDigits(s)
  {
    if |s| == 0 then 0
    else DigitsValue(s[..|s| - 1]) * 10 + (s[|s| - 1] as int - '0' as int)
  }

  /** boost::lexical_cast<int>: an optional sign and at least one decimal
      digit, nothing else, and a value that fits an int; anything else is a
      bad_lexical_cast, which here is None. */
  function ParseInt(s: string): (r: Option<int>)
    ensures r.Some? ==> MinInt32 <= r.value <= MaxInt32
    ensures r.Some? ==> |s| > 0 && (IsDigit(s[0]) || s[0] == '-' || s[0] == '+')
  {
    var signed := |s| > 0 && (s[0] == '-' || s[0] == '+');
    var digits := if signed then s[1..] else s;
    if |digits| == 0 || !AllDigits(digits) then None
    else
      var v: int := if signed && s[0] == '-' then -(DigitsValue(digits) as int) else DigitsValue(digits);
      if MinInt32 <= v <= MaxInt32 then Some(v) else None
  }

  /** The decimal digits of n, without leading zeros. */
  function ShowNat(n: nat): (s: string)
    ensures |s| > 0 && AllDigits(s)
  {
    var d := ['0' + (n % 10) as char];
    if n < 10 then d else ShowNat(n / 10) + d
  }

  /** Decimal text of an int: a '-' before the digits of a negative one. */
  function ShowInt(n: int): string {
    if n < 0 then "-" + ShowNat(-n) else ShowNat(n)
  }

  lemma {:induction false} DigitsOfShowNat(n: nat)
    ensures DigitsValue(ShowNat(n)) == n
    decreases n
  {
    var s := ShowNat(n);
    if n >= 10 {
      DigitsOfShowNat(n / 10);
      assert s[..|s| - 1] == ShowNat(n / 10);
    }
  }

  lemma ParseShowNegative(n: int)
    requires MinInt32 <= n < 0
    ensures ParseInt(ShowInt(n)) == Some(n)
  {
    var d := ShowNat(-n);
    var s := ShowInt(n);
    assert s == "-" + d;
    assert s[0] == '-' && s[1..] == d;
    DigitsOfShowNat(-n);
    assert -(DigitsValue(d) as int) == n;
  }

  lemma ParseShowNonNegative(n: int)
    requires 0 <= n <= MaxInt32
    ensures ParseInt(ShowInt(n)) == Some(n)
  {
    var s := ShowNat(n);
    assert ShowInt(n) == s;
    assert IsDigit(s[0]);
    DigitsOfShowNat(n);
  }

  /** Every int printed in decimal reads back as itself. */
  lemma ParseShowInt(n: int)
    requires MinInt32 <= n <= MaxInt32
    ensures ParseInt(ShowInt(n)) == Some(n)
  {
    if n < 0 {
      ParseShowNegative(n);
    } else {
      ParseShowNonNegative(n);
    }
  }

  /** A value with anything but digits after the optional sign is refused. */
  lemma ParseRejectsNonDigit(s: string, i: nat)
    requires 0 < i < |s| && !IsDigit(s[i])
    ensures ParseInt(s) == None
  {
  }
}
