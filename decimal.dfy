/**
 * Python's `str(int)`, `int(str)` and `str.split(",")` on the subset of
 * inputs the service feeds them: decimal integers and comma-separated
 * lists of them.
 */
module Decimal {
  import opened Common

  predicate IsDigit(c: char) { '0' <= c <= '9' }

  /** The whitespace `int()` strips from both ends (ASCII subset). */
  predicate IsSpace(c: char) { c == ' ' || c == '\t' || c == '\n' || c == '\r' || c == '\U{0b}' || c == '\U{0c}' }

  function DigitChar(d: int): (c: char)
    requires 0 <= d < 10
    ensures IsDigit(c)
  {
    ('0' as int + d) as char
  }

  function DigitValue(c: char): (d: int)
    requires IsDigit(c)
    ensures 0 <= d < 10
  {
    c as int - '0' as int
  }

  /** The decimal digits of `n`, most significant first, no leading zeros. */
  function Digits(n: nat): (s: string)
    ensures |s| > 0 && forall i :: 0 <= i < |s| ==> IsDigit(s[i])
  {
    if n < 10 then [DigitChar(n)] else Digits(n / 10) + [DigitChar(n % 10)]
  }

  /** `str(n)` for an int. */
  function Render(n: int): string
  {
    if n < 0 then "-" + Digits(-n) else Digits(n)
  }

  /** The value of a string of decimal digits. */
  function DigitsValue(s: string): (n: nat)
    requires forall i :: 0 <= i < |s| ==> IsDigit(s[i])
  {
    if |s| == 0 then 0 else DigitsValue(s[..|s| - 1]) * 10 + DigitValue(s[|s| - 1])
  }

  function TrimStart(s: string): (r: string)
    ensures |r| <= |s| && (|r| > 0 ==> !IsSpace(r[0]))
  {
    if |s| > 0 && IsSpace(s[0]) then TrimStart(s[1..]) else s
  }

  function TrimEnd(s: string): (r: string)
    ensures |r| <= |s| && (|r| > 0 ==> !IsSpace(r[|r| - 1]))
  {
    if |s| > 0 && IsSpace(s[|s| - 1]) then TrimEnd(s[..|s| - 1]) else s
  }

  predicate AllDigits(s: string) { |s| > 0 && forall i :: 0 <= i < |s| ==> IsDigit(s[i]) }

  /** `int(s)`: surrounding whitespace, an optional sign and at least one
      digit; anything else raises ValueError. */
  function ParseInt(s: string): (r: Result<int>)
    ensures r.Err? ==> r.error == ValueError
  {
    var t := TrimEnd(TrimStart(s));
    if |t| > 0 && (t[0] == '-' || t[0] == '+') then
      if AllDigits(t[1..]) then
        Ok(if t[0] == '-' then 0 - DigitsValue(t[1..]) as int else DigitsValue(t[1..]))
      else Err(ValueError)
    else if AllDigits(t) then Ok(DigitsValue(t))
    else Err(ValueError)
  }

  lemma {:induction false} DigitsRoundTrip(n: nat)
    ensures DigitsValue(Digits(n)) == n
  {
    if n >= 10 {
      DigitsRoundTrip(n / 10);
      var ds := Digits(n / 10) + [DigitChar(n % 10)];
      assert ds[..|ds| - 1] == Digits(n / 10);
    }
  }

  /** `int(str(n)) == n`. */
  lemma RenderRoundTrip(n: int)
    ensures ParseInt(Render(n)) == Ok(n)
  {
    var s := Render(n);
    var ds := Digits(if n < 0 then -n else n);
    DigitsRoundTrip(if n < 0 then -n else n);
    assert !IsSpace(s[0]) && !IsSpace(s[|s| - 1]);
    assert TrimEnd(TrimStart(s)) == s;
    if n < 0 {
      assert s[1..] == ds;
    }
  }

  /** `str` is injective on ints, and renders exactly 0 as "0". */
  lemma RenderInjective(m: int, n: int)
    ensures Render(m) == Render(n) <==> m == n
    ensures Render(n) == "0" <==> n == 0
  {
    RenderRoundTrip(m);
    RenderRoundTrip(n);
    RenderRoundTrip(0);
  }

  // ---------------------------------------------------------------------
  // str.split(",")

  /** `s.split(",")`: the pieces between commas; never empty, and "" gives [""]. */
  function Split(s: string): (pieces: seq<string>)
    ensures |pieces| > 0
  {
    if |s| == 0 then [""]
    else
      var init := Split(s[..|s| - 1]);
      var c := s[|s| - 1];
      if c == ',' then init + [""]
      else init[..|init| - 1] + [init[|init| - 1] + [c]]
  }

  /** `",".join(pieces)`. */
  function Join(pieces: seq<string>): string
  {
    if |pieces| == 0 then ""
    else if |pieces| == 1 then pieces[0]
    else Join(pieces[..|pieces| - 1]) + "," + pieces[|pieces| - 1]
  }

  predicate NoComma(s: string) { forall i :: 0 <= i < |s| ==> s[i] != ',' }

  /** One more character: a comma opens a new piece, anything else extends the last. */
  lemma SplitSnoc(s: string, c: char)
    ensures var init := Split(s);
      Split(s + [c]) == if c == ',' then init + [""] else init[..|init| - 1] + [init[|init| - 1] + [c]]
  {
    assert (s + [c])[..|s|] == s;
  }

  /** Splitting a comma-free piece extended to the right keeps one piece. */
  lemma {:induction false} SplitNoComma(prefix: string, piece: string)
    requires NoComma(piece)
    ensures var p := Split(prefix);
      Split(prefix + piece) == p[..|p| - 1] + [p[|p| - 1] + piece]
    decreases |piece|
  {
    var p := Split(prefix);
    if |piece| == 0 {
      assert prefix + piece == prefix;
      assert p[|p| - 1] + piece == p[|p| - 1];
      assert p[..|p| - 1] + [p[|p| - 1]] == p;
    } else {
      var pre, c := piece[..|piece| - 1], piece[|piece| - 1];
      assert NoComma(pre) by {
        forall i | 0 <= i < |pre| ensures pre[i] != ',' {
          assert pre[i] == piece[i];
        }
      }
      assert c != ',';
      assert prefix + piece == (prefix + pre) + [c] by {
        assert piece == pre + [c];
      }
      var q := Split(prefix + pre);
      assert q == p[..|p| - 1] + [p[|p| - 1] + pre] by {
        SplitNoComma(prefix, pre);
      }
      assert Split(prefix + piece) == q[..|q| - 1] + [q[|q| - 1] + [c]] by {
        SplitSnoc(prefix + pre, c);
      }
      assert q[..|q| - 1] == p[..|p| - 1];
      assert q[|q| - 1] + [c] == p[|p| - 1] + piece by {
        assert q[|q| - 1] == p[|p| - 1] + pre;
        assert piece == pre + [c];
      }
    }
  }

  /** Splitting a join of comma-free pieces gives the pieces back. */
  lemma {:induction false} SplitJoin(pieces: seq<string>)
    requires |pieces| > 0
    requires forall i :: 0 <= i < |pieces| ==> NoComma(pieces[i])
    ensures Split(Join(pieces)) == pieces
  {
    var last := pieces[|pieces| - 1];
    if |pieces| == 1 {
      assert Split("" + last) == [last] by {
        var p := Split("");
        assert p == [""];
        SplitNoComma("", last);
        assert p[..|p| - 1] == [];
        assert p[|p| - 1] + last == last;
      }
      assert "" + last == last;
      assert Join(pieces) == last;
      assert pieces == [last];
    } else {
      var init := pieces[..|pieces| - 1];
      assert Split(Join(init)) == init by {
        forall i | 0 <= i < |init| ensures NoComma(init[i]) {
          assert init[i] == pieces[i];
        }
        SplitJoin(init);
      }
      var prefix := Join(init) + ",";
      assert Split(prefix) == init + [""] by {
        SplitSnoc(Join(init), ',');
      }
      assert Split(prefix + last) == init + [last] by {
        SplitNoComma(prefix, last);
        assert (init + [""])[..|init|] == init;
        assert "" + last == last;
      }
      assert Join(pieces) == prefix + last;
      assert init + [last] == pieces;
    }
  }

  lemma RenderNoComma(n: int)
    ensures NoComma(Render(n))
  {
    var ds := Digits(if n < 0 then -n else n);
    assert forall i :: 0 <= i < |ds| ==> IsDigit(ds[i]);
  }
}
