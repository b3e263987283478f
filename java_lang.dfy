/**
 * The pieces of the Java class library whose exact behaviour decides which
 * bytes an IPP request carries: `String.split(" ")`, `Integer.parseInt`,
 * the decimal form an `int` takes in string concatenation, and
 * `String.indexOf` / `lastIndexOf` for reading a URI back.
 */
module JavaLang {

  import opened Wrappers

  type Int32 = x: int | -0x8000_0000 <= x < 0x8000_0000

  /** The exceptions the modelled code can raise. */
  datatype JavaException =
    | NumberFormatException
    | ArrayIndexOutOfBoundsException
    | BufferUnderflowException

  /** How a Java method that returns a reference ends: it returns null, it
      throws, or it returns an object. */
  datatype Outcome<+T> = Null | Threw(exception: JavaException) | Returned(value: T)

  const Space: char := ' '

  /* ---------------------------------------------------------------------
   * String.split(" ")
   * ------------------------------------------------------------------- */

  /** The pieces of `s` between consecutive spaces, empty pieces included:
      the raw split, before Java drops anything. */
  function Pieces(s: string): (r: seq<string>)
    ensures |r| >= 1
    ensures forall k :: 0 <= k < |r| ==> Space !in r[k]
  {
    if s == [] then [[]]
    else
      var init := Pieces(s[..|s| - 1]);
      var c := s[|s| - 1];
      if c == Space then init + [[]]
      else init[..|init| - 1] + [init[|init| - 1] + [c]]
  }

  /** The pieces joined back with one space between neighbours. */
  function Join(ps: seq<string>): string
  {
    if |ps| == 0 then []
    else if |ps| == 1 then ps[0]
    else Join(ps[..|ps| - 1]) + [Space] + ps[|ps| - 1]
  }

  /** Removes the empty strings at the end of `ps`, as `split` does when its
      limit is zero. */
  function DropTrailingEmpty(ps: seq<string>): (r: seq<string>)
    ensures |r| <= |ps| && r == ps[..|r|]
    ensures r == [] || r[|r| - 1] != []
    ensures forall k :: |r| <= k < |ps| ==> ps[k] == []
  {
    if |ps| == 0 then []
    else if ps[|ps| - 1] == [] then DropTrailingEmpty(ps[..|ps| - 1])
    else ps
  }

  /** Java's `s.split(" ")`: a string without a space comes back whole (so ""
      gives [""]); otherwise the pieces between spaces, leading and inner
      empty pieces kept, trailing empty pieces removed (so an all-space string
      gives []). */
  function Split(s: string): seq<string>
  {
    if Space !in s then [s] else DropTrailingEmpty(Pieces(s))
  }

  lemma JoinAppendEmpty(ps: seq<string>)
    requires |ps| >= 1
    ensures Join(ps + [[]]) == Join(ps) + [Space]
  {
    assert (ps + [[]])[..|ps|] == ps;
  }

  lemma JoinExtendLast(ps: seq<string>, c: char)
    requires |ps| >= 1
    ensures Join(ps[..|ps| - 1] + [ps[|ps| - 1] + [c]]) == Join(ps) + [c]
  {
    var r := ps[..|ps| - 1] + [ps[|ps| - 1] + [c]];
    if |ps| > 1 {
      assert r[..|r| - 1] == ps[..|ps| - 1];
    }
  }

  lemma {:induction false} JoinPieces(s: string)
    ensures Join(Pieces(s)) == s
  {
    if s != [] {
      var init := Pieces(s[..|s| - 1]);
      JoinPieces(s[..|s| - 1]);
      if s[|s| - 1] == Space {
        JoinAppendEmpty(init);
      } else {
        JoinExtendLast(init, s[|s| - 1]);
      }
      assert s[..|s| - 1] + [s[|s| - 1]] == s;
    }
  }

  /** Joining after dropping trailing empty pieces loses only spaces, all of
      them at the end. */
  lemma {:induction false} JoinDropTrailingEmpty(ps: seq<string>)
    requires |ps| >= 1
    ensures var j := Join(DropTrailingEmpty(ps));
            |j| <= |Join(ps)| && Join(ps)[..|j|] == j &&
            forall i :: |j| <= i < |Join(ps)| ==> Join(ps)[i] == Space
  {
    if ps[|ps| - 1] == [] && |ps| > 1 {
      var init := ps[..|ps| - 1];
      JoinDropTrailingEmpty(init);
      assert Join(ps) == Join(init) + [Space];
    }
  }

  /** The tokens of `split(" ")` contain no space, and joined with single
      spaces they give back `s` up to a run of trailing spaces. */
  lemma SplitJoin(s: string)
    ensures forall k :: 0 <= k < |Split(s)| ==> Space !in Split(s)[k]
    ensures var j := Join(Split(s));
            |j| <= |s| && s[..|j|] == j && forall i :: |j| <= i < |s| ==> s[i] == Space
  {
    if Space in s {
      JoinPieces(s);
      JoinDropTrailingEmpty(Pieces(s));
    }
  }

  /** When `s` has a space and the split is not empty, its last token is not
      empty: trailing empty tokens never survive. */
  lemma SplitLastNonEmpty(s: string)
    requires Space in s && Split(s) != []
    ensures Split(s)[|Split(s)| - 1] != []
  {
  }

  /** `split(" ")` returns no token at all exactly when `s` is a non-empty
      run of spaces. */
  lemma SplitEmptyIff(s: string)
    ensures Split(s) == [] <==> (s != [] && forall i :: 0 <= i < |s| ==> s[i] == Space)
  {
    SplitJoin(s);
    if s != [] && forall i :: 0 <= i < |s| ==> s[i] == Space {
      AllSpaceSplit(s);
    }
  }

  lemma AllSpaceSplit(s: string)
    requires s != [] && forall i :: 0 <= i < |s| ==> s[i] == Space
    ensures Split(s) == []
  {
    assert s[0] == Space;
    AllSpacePieces(s);
  }

  lemma {:induction false} AllSpacePieces(s: string)
    requires forall i :: 0 <= i < |s| ==> s[i] == Space
    ensures forall k :: 0 <= k < |Pieces(s)| ==> Pieces(s)[k] == []
  {
    if s != [] {
      AllSpacePieces(s[..|s| - 1]);
    }
  }

  lemma {:induction false} PiecesOfWord(w: string)
    requires Space !in w
    ensures Pieces(w) == [w]
  {
    if w != [] {
      PiecesOfWord(w[..|w| - 1]);
      assert w[..|w| - 1] + [w[|w| - 1]] == w;
    }
  }

  lemma {:induction false} PiecesAppendWord(x: string, w: string)
    requires Space !in w
    ensures Pieces(x + [Space] + w) == Pieces(x) + [w]
  {
    if w == [] {
      assert (x + [Space] + w)[..|x|] == x;
    } else {
      var w' := w[..|w| - 1];
      PiecesAppendWord(x, w');
      var s := x + [Space] + w;
      assert s[..|s| - 1] == x + [Space] + w';
      assert w' + [w[|w| - 1]] == w;
    }
  }

  /** Splitting at every space is the only way to cut a string into
      space-free pieces that join back to it. */
  lemma {:induction false} PiecesUnique(ps: seq<string>)
    requires |ps| >= 1
    requires forall k :: 0 <= k < |ps| ==> Space !in ps[k]
    ensures Pieces(Join(ps)) == ps
  {
    if |ps| == 1 {
      PiecesOfWord(ps[0]);
    } else {
      var init := ps[..|ps| - 1];
      PiecesUnique(init);
      PiecesAppendWord(Join(init), ps[|ps| - 1]);
      assert init + [ps[|ps| - 1]] == ps;
    }
  }

  /** How `split(" ")` treats the edge cases: words, a leading space, two
      spaces in a row, trailing spaces, the empty string, only spaces. */
  lemma SplitWords()
    ensures Split("a b c") == ["a", "b", "c"]
  {
    var ps := ["a", "b", "c"];
    assert ps[..2] == ["a", "b"] && ["a", "b"][..1] == ["a"];
    assert Join(ps) == "a b c";
    PiecesUnique(ps);
  }

  lemma SplitLeadingSpace()
    ensures Split(" a") == ["", "a"]
  {
    var ps := ["", "a"];
    assert ps[..1] == [""];
    assert Join(ps) == " a";
    PiecesUnique(ps);
  }

  lemma SplitDoubleSpace()
    ensures Split("a  b") == ["a", "", "b"]
  {
    PiecesOfWord("a");
    PiecesAppendWord("a", "");
    assert "a" + [Space] + "" == "a ";
    PiecesAppendWord("a ", "b");
    assert "a " + [Space] + "b" == "a  b";
    assert ["a"] + [""] + ["b"] == ["a", "", "b"];
  }

  lemma SplitTrailingSpaces()
    ensures Split("a b  ") == ["a", "b"]
  {
    var ps := ["a", "b", "", ""];
    assert ps[..3] == ["a", "b", ""] && ps[..3][..2] == ["a", "b"] && ["a", "b"][..1] == ["a"];
    assert Join(ps) == "a b  ";
    PiecesUnique(ps);
    assert DropTrailingEmpty(ps[..3]) == ["a", "b"];
  }

  lemma SplitEmptyAndBlank()
    ensures Split("") == [""]
    ensures Split("   ") == []
  {
    AllSpaceSplit("   ");
  }

  /* ---------------------------------------------------------------------
   * Decimal digits: Integer.toString and Integer.parseInt
   * ------------------------------------------------------------------- */

  predicate IsDigit(c: char)
  {
    '0' <= c <= '9'
  }

  predicate AllDigits(s: string)
  {
    forall i :: 0 <= i < |s| ==> IsDigit(s[i])
  }

  function DigitChar(d: nat): (c: char)
    requires d < 10
    ensures IsDigit(c) && c as int - '0' as int == d
  {
    ('0' as int + d) as char
  }

  /** The value of a string of decimal digits, most significant first. */
  function DigitsValue(ds: string): nat
    requires AllDigits(ds)
  {
    if |ds| == 0 then 0
    else 10 * DigitsValue(ds[..|ds| - 1]) + (ds[|ds| - 1] as int - '0' as int)
  }

  /** The decimal digits of `n`, with no leading zero unless `n` is 0. */
  function NatDecimal(n: nat): (s: string)
    ensures |s| >= 1 && AllDigits(s)
    ensures s[0] == '0' <==> n == 0
  {
    if n < 10 then [DigitChar(n)] else NatDecimal(n / 10) + [DigitChar(n % 10)]
  }

  /** The text Java writes for an `int` in a string concatenation. */
  function Decimal(n: int): (s: string)
    ensures |s| >= 1
    ensures forall i :: 0 <= i < |s| ==> IsDigit(s[i]) || s[i] == '-'
  {
    if n < 0 then "-" + NatDecimal(-n) else NatDecimal(n)
  }

  lemma {:induction false} NatDecimalValue(n: nat)
    ensures DigitsValue(NatDecimal(n)) == n
  {
    if n >= 10 {
      var s := NatDecimal(n);
      NatDecimalValue(n / 10);
      assert s[..|s| - 1] == NatDecimal(n / 10);
    }
  }

  /** `Integer.parseInt(s)` in radix 10: an optional '+' or '-', then at least
      one digit; `None` stands for the NumberFormatException it throws on any
      other text and on a value outside the 32-bit range. */
  function ParseInt(s: string): (r: Option<Int32>)
  {
    if |s| == 0 then None
    else
      var signed := s[0] == '-' || s[0] == '+';
      var digits := if signed then s[1..] else s;
      if |digits| == 0 || !AllDigits(digits) then None
      else
        var v: int := if s[0] == '-' then -(DigitsValue(digits) as int) else DigitsValue(digits);
        if -0x8000_0000 <= v < 0x8000_0000 then Some(v) else None
  }

  /** `parseInt` reads back every `int` Java writes. */
  lemma ParseIntDecimal(n: Int32)
    ensures ParseInt(Decimal(n)) == Some(n)
  {
    if n < 0 {
      var m: nat := -(n as int);
      var d := NatDecimal(m);
      NatDecimalValue(m);
      assert Decimal(n) == ['-'] + d;
      assert (['-'] + d)[1..] == d;
    } else {
      var d := NatDecimal(n);
      NatDecimalValue(n);
      assert d[0] != '-' && d[0] != '+' by { assert IsDigit(d[0]); }
    }
  }

  /** The text after an optional leading '+' or '-'. */
  function Unsigned(s: string): string
  {
    if |s| >= 1 && (s[0] == '-' || s[0] == '+') then s[1..] else s
  }

  /** An optional sign, then at least one decimal digit. */
  predicate SignedDigits(s: string)
  {
    |Unsigned(s)| >= 1 && AllDigits(Unsigned(s))
  }

  /** The value such a text denotes, whatever its size. */
  function SignedValue(s: string): int
    requires SignedDigits(s)
  {
    if s[0] == '-' then 0 - DigitsValue(Unsigned(s)) else DigitsValue(Unsigned(s))
  }

  /** `parseInt` accepts exactly the signed digit strings whose value fits
      in 32 bits, and returns that value. */
  lemma ParseIntAccepts(s: string)
    ensures ParseInt(s).Some? <==> SignedDigits(s) && -0x8000_0000 <= SignedValue(s) < 0x8000_0000
    ensures ParseInt(s).Some? ==> SignedDigits(s) && ParseInt(s).value == SignedValue(s)
  {
  }

  lemma ParseIntExamples()
    ensures ParseInt("42") == Some(42)
    ensures ParseInt("+7") == Some(7)
    ensures ParseInt("-007") == Some(-7)
    ensures ParseInt("0042") == Some(42)
    ensures ParseInt("") == None
    ensures ParseInt("-") == None
    ensures ParseInt("12a") == None
  {
    assert "4"[..0] == "" && DigitsValue("4") == 4;
    assert "42"[..1] == "4" && DigitsValue("42") == 42;
    assert "0"[..0] == "" && DigitsValue("0") == 0;
    assert "00"[..1] == "0" && DigitsValue("00") == 0;
    assert "007"[..2] == "00" && DigitsValue("007") == 7;
    assert "-007"[1..] == "007";
    assert "004"[..2] == "00" && DigitsValue("004") == 4;
    assert "0042"[..3] == "004" && DigitsValue("0042") == 42;
    assert "+7"[1..] == "7" && "7"[..0] == "" && DigitsValue("7") == 7;
    assert "12a"[2] == 'a';
  }

  /** One past the largest `int` is rejected. */
  lemma ParseIntOverflowExample()
    ensures ParseInt("2147483648") == None
  {
    assert "2"[..0] == "" && DigitsValue("2") == 2;
    assert "21"[..1] == "2" && DigitsValue("21") == 21;
    assert "214"[..2] == "21" && DigitsValue("214") == 214;
    assert "2147"[..3] == "214" && DigitsValue("2147") == 2147;
    assert "21474"[..4] == "2147" && DigitsValue("21474") == 21474;
    assert "214748"[..5] == "21474" && DigitsValue("214748") == 214748;
    assert "2147483"[..6] == "214748" && DigitsValue("2147483") == 2147483;
    assert "21474836"[..7] == "2147483" && DigitsValue("21474836") == 21474836;
    assert "214748364"[..8] == "21474836" && DigitsValue("214748364") == 214748364;
    assert "2147483648"[..9] == "214748364" && DigitsValue("2147483648") == 2147483648;
  }

  /* ---------------------------------------------------------------------
   * String.indexOf / lastIndexOf on a single character
   * ------------------------------------------------------------------- */

  /** The first index of `c` in `s`, or `|s|` when there is none. */
  function IndexOf(s: string, c: char): (r: nat)
    ensures r <= |s|
    ensures forall i :: 0 <= i < r ==> s[i] != c
    ensures r < |s| ==> s[r] == c
  {
    if |s| == 0 || s[0] == c then 0 else 1 + IndexOf(s[1..], c)
  }

  /** The last index of `c` in `s`, or -1 when there is none. */
  function LastIndexOf(s: string, c: char): (r: int)
    ensures -1 <= r < |s|
    ensures forall i :: r < i < |s| ==> s[i] != c
    ensures r >= 0 ==> s[r] == c
  {
    if |s| == 0 then -1
    else if s[|s| - 1] == c then |s| - 1
    else LastIndexOf(s[..|s| - 1], c)
  }

  /** The first `c` in `a + [c] + b`, when `a` has none, is right after `a`. */
  lemma IndexOfAfter(a: string, c: char, b: string)
    requires c !in a
    ensures IndexOf(a + [c] + b, c) == |a|
  {
    var s := a + [c] + b;
    var r := IndexOf(s, c);
    assert s[|a|] == c;
  }

  lemma IndexOfAbsent(a: string, c: char)
    requires c !in a
    ensures IndexOf(a, c) == |a|
  {
  }

  /** The last `c` in `a + [c] + b`, when `b` has none, is right after `a`. */
  lemma LastIndexOfBefore(a: string, c: char, b: string)
    requires c !in b
    ensures LastIndexOf(a + [c] + b, c) == |a|
  {
    var s := a + [c] + b;
    var r := LastIndexOf(s, c);
    assert s[|a|] == c;
  }
}
