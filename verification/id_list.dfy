/** The server lists photo ids as the debug text of a Scala collection,
    e.g. `List(3, 7, 9)`. The client decodes it with
    `text.replace(/List\(|\)/g, '').split(',')`, trims each token, optionally
    drops blank tokens, and applies `parseInt(token, 10)`. Decoding never
    fails: a token without leading digits becomes NaN in its position.
    The link request sends ids back as `ids.join(',')`. */
module IdList {
  import opened JsString
  import opened JsNumber
  import opened Seqs

  const Wrapper: string := "List("

  /** The pattern `List\(` matches at the front of `s`. */
  predicate StartsWrapper(s: string) {
    |s| >= 5 && s[0] == 'L' && s[1] == 'i' && s[2] == 's' && s[3] == 't' && s[4] == '('
  }

  /** The letter-by-letter test is a prefix test against `List(`. */
  lemma {:induction false} StartsWrapperIsPrefix(s: string)
    ensures StartsWrapper(s) <==> |s| >= |Wrapper| && s[..|Wrapper|] == Wrapper
  {
    if |s| >= |Wrapper| && s[..|Wrapper|] == Wrapper {
      assert s[..|Wrapper|][4] == s[4];
    }
  }

  /** `text.replace(/List\(|\)/g, '')`: one left-to-right pass that removes
      every `List(` and every `)`, trying `List(` first at each position. */
  function Strip(s: string): (r: string)
    ensures ')' !in r
    ensures |r| <= |s|
    decreases |s|
  {
    if |s| == 0 then ""
    else if StartsWrapper(s) then Strip(s[|Wrapper|..])
    else if s[0] == ')' then Strip(s[1..])
    else [s[0]] + Strip(s[1..])
  }

  /** `y` cannot complete a `List(` begun at the end of some text: it is
      empty or does not start with one of the characters after the `L`. */
  predicate CannotFinishWrapper(y: string) {
    |y| == 0 || (y[0] != 'i' && y[0] != 's' && y[0] != 't' && y[0] != '(')
  }

  /** A `List(` at the front of `x + y` lies inside `x`. */
  lemma {:induction false} NoStraddle(x: string, y: string)
    requires |x| > 0 && !StartsWrapper(x) && CannotFinishWrapper(y)
    ensures !StartsWrapper(x + y)
  {
    var s := x + y;
    if |x| >= |Wrapper| {
      assert forall k :: 0 <= k < |Wrapper| ==> s[k] == x[k];
    } else if |y| > 0 && |s| >= |Wrapper| {
      assert s[|x|] == y[0];
      assert forall k :: 0 <= k < |x| ==> s[k] == x[k];
    }
  }

  /** Stripping works piecewise across a boundary no `List(` can straddle. */
  lemma {:induction false} StripConcat(x: string, y: string)
    requires CannotFinishWrapper(y)
    ensures Strip(x + y) == Strip(x) + Strip(y)
    decreases |x|
  {
    var s := x + y;
    if |x| == 0 {
      assert s == y;
    } else if StartsWrapper(x) {
      assert forall k :: 0 <= k < |Wrapper| ==> s[k] == x[k];
      assert s[|Wrapper|..] == x[|Wrapper|..] + y;
      StripConcat(x[|Wrapper|..], y);
    } else {
      NoStraddle(x, y);
      assert s[0] == x[0];
      assert s[1..] == x[1..] + y;
      StripConcat(x[1..], y);
    }
  }

  /** Text shorter than `List(` and free of `)` passes through unchanged. */
  lemma {:induction false} StripShort(s: string)
    requires |s| < |Wrapper| && ')' !in s
    ensures Strip(s) == s
    decreases |s|
  {
    if |s| > 0 {
      assert s[0] in s;
      StripShort(s[1..]);
      assert [s[0]] + s[1..] == s;
    }
  }

  /** Every `List(` anywhere in the text is removed, not only a leading one. */
  lemma {:induction false} StripRemovesEveryWrapper(x: string, y: string)
    ensures Strip(x + Wrapper + y) == Strip(x) + Strip(y)
  {
    var z := Wrapper + y;
    assert z[0] == 'L' && z[1] == 'i' && z[2] == 's' && z[3] == 't' && z[4] == '(';
    StripConcat(x, z);
    assert x + Wrapper + y == x + z;
    assert z[|Wrapper|..] == y;
  }

  /** Every `)` anywhere in the text is removed. */
  lemma {:induction false} StripRemovesEveryParen(x: string, y: string)
    ensures Strip(x + ")" + y) == Strip(x) + Strip(y)
  {
    StripConcat(x, ")" + y);
    assert x + ")" + y == x + (")" + y);
    assert (")" + y)[1..] == y;
  }

  /** A character other than `L` and `)` in front is kept as it is. */
  lemma {:induction false} StripKeepsPlain(c: char, y: string)
    requires c != 'L' && c != ')'
    ensures Strip([c] + y) == [c] + Strip(y)
  {
    var s := [c] + y;
    assert s[0] == c;
    assert s[1..] == y;
  }

  /** A comma is never part of a `List(`, so stripping respects commas. */
  lemma {:induction false} StripComma(x: string, y: string)
    ensures Strip(x + [','] + y) == Strip(x) + [','] + Strip(y)
  {
    var z := [','] + y;
    assert z[0] == ',';
    StripConcat(x, z);
    StripKeepsPlain(',', y);
    assert x + [','] + y == x + z;
  }

  /** Text with no `L` and no `)` passes through unchanged. */
  lemma {:induction false} StripIdentity(s: string)
    requires 'L' !in s && ')' !in s
    ensures Strip(s) == s
    decreases |s|
  {
    if |s| > 0 {
      assert s[0] in s;
      StripIdentity(s[1..]);
      assert [s[0]] + s[1..] == s;
    }
  }

  /** The pass is not repeated: removing an inner `List(` can bring a new
      one together, and that one survives. */
  lemma {:induction false} StripIsSinglePass(t: string)
    requires t == "LiList(st(1"
    ensures Strip(t) == "List(1"
    ensures Strip(Strip(t)) == "1"
  {
    StripLiListSt(t);
    StripListOne(Strip(t));
  }

  /** The first pass over `LiList(st(1`: only the inner wrapper goes. */
  lemma {:induction false} StripLiListSt(t: string)
    requires t == "LiList(st(1"
    ensures Strip(t) == "List(1"
  {
    var x, y := "Li", "st(1";
    assert t == x + Wrapper + y;
    StripRemovesEveryWrapper(x, y);
    StripShort(x);
    StripShort(y);
  }

  /** The second pass: the wrapper the first pass joined goes too. */
  lemma {:induction false} StripListOne(u: string)
    requires u == "List(1"
    ensures Strip(u) == "1"
  {
    StripRemovesEveryWrapper("", "1");
    assert "" + Wrapper + "1" == u;
    StripShort("");
    StripShort("1");
  }

  // ---------------------------------------------------------------------
  // Tokens

  /** The comma-separated tokens of the stripped text, untrimmed. */
  function Tokens(text: string): seq<string> {
    SplitOn(Strip(text), ",")
  }

  predicate NonBlank(t: string) {
    !Blank(t)
  }

  /** The id one token denotes: `parseInt(token.trim(), 10)`. */
  function ParseToken(token: string): Num {
    ParseInt(Trim(token))
  }

  /** The id each token denotes, in order. */
  function ParseTokens(tokens: seq<string>): (ids: seq<Num>)
    ensures |ids| == |tokens|
  {
    Map(tokens, ParseToken)
  }

  lemma {:induction false} ParseTokensAppend(a: seq<string>, b: seq<string>)
    ensures ParseTokens(a + b) == ParseTokens(a) + ParseTokens(b)
  {
    MapAppend(a, b, ParseToken);
  }

  /** The decoder. With `dropBlank` false (the `/photos` listings) every
      token yields an id, so blank text gives one NaN; with `dropBlank` true
      (an album's listing) blank tokens are skipped first. */
  function Decode(text: string, dropBlank: bool): (ids: seq<Num>)
    ensures !dropBlank ==> |ids| == CountChar(Strip(text), ',') + 1
    ensures dropBlank ==> |ids| <= CountChar(Strip(text), ',') + 1
  {
    SplitCharCount(Strip(text), ',');
    var tokens := Tokens(text);
    ParseTokens(if dropBlank then Filter(tokens, NonBlank) else tokens)
  }

  /** A comma splits the stripped text in exactly one place. */
  lemma {:induction false} TokensComma(a: string, b: string)
    ensures Tokens(a + [','] + b) == Tokens(a) + Tokens(b)
  {
    StripComma(a, b);
    SplitCharConcat(Strip(a), ',', Strip(b));
  }

  /** Decoding preserves left-to-right order: the ids of `a,b` are the ids
      of `a` followed by the ids of `b`, in both variants. */
  lemma {:induction false} DecodeComma(a: string, b: string, dropBlank: bool)
    ensures Decode(a + [','] + b, dropBlank) == Decode(a, dropBlank) + Decode(b, dropBlank)
  {
    TokensComma(a, b);
    if dropBlank {
      FilterAppend(Tokens(a), Tokens(b), NonBlank);
      ParseTokensAppend(Filter(Tokens(a), NonBlank), Filter(Tokens(b), NonBlank));
    } else {
      ParseTokensAppend(Tokens(a), Tokens(b));
    }
  }

  /** A text without commas is one token: it yields exactly one id when
      blanks are kept, and none or one when they are dropped. */
  lemma {:induction false} DecodeSingleToken(t: string, dropBlank: bool)
    requires ',' !in Strip(t)
    ensures var id := ParseInt(Trim(Strip(t)));
      Decode(t, dropBlank) == if dropBlank && Blank(Strip(t)) then [] else [id]
  {
    SplitCharAbsent(Strip(t), ',');
  }

  /** A blank token always decodes to NaN. */
  lemma {:induction false} BlankIsNaN(t: string)
    requires Blank(t)
    ensures ParseInt(Trim(t)) == NaN
  {
  }

  /** With blanks dropped, blank or empty text means "no photos". */
  lemma {:induction false} DecodeBlankText(text: string)
    requires Blank(Strip(text)) && ',' !in Strip(text)
    ensures Decode(text, true) == []
    ensures Decode(text, false) == [NaN]
  {
    DecodeSingleToken(text, true);
    DecodeSingleToken(text, false);
  }

  // ---------------------------------------------------------------------
  // Encoding, as in the link request

  /** `ids.join(',')`. */
  function JoinIds(ids: seq<Num>): string {
    Join(seq(|ids|, i requires 0 <= i < |ids| => NumToString(ids[i])), ",")
  }

  /** The text of one id survives the decoder's stripping, splitting and
      trimming, and parses back to the id. */
  lemma {:induction false} IdTextDecodes(x: Num)
    ensures var t := NumToString(x);
      'L' !in t && ')' !in t && ',' !in t && Trim(t) == t && NonBlank(t) && ParseInt(t) == x
  {
    NumToStringAlphabet(x);
    TrimNoSpace(NumToString(x));
    NumRoundTrip(x);
  }

  /** Decoding the comma-joined ids gives the ids back, NaN included, for
      any non-empty list and either variant. */
  lemma {:induction false} DecodeJoinIds(ids: seq<Num>, dropBlank: bool)
    requires |ids| > 0
    ensures Decode(JoinIds(ids), dropBlank) == ids
  {
    var parts := seq(|ids|, i requires 0 <= i < |ids| => NumToString(ids[i]));
    forall k | 0 <= k < |parts|
      ensures 'L' !in parts[k] && ')' !in parts[k] && ',' !in parts[k]
      ensures Trim(parts[k]) == parts[k] && NonBlank(parts[k])
      ensures ParseInt(Trim(parts[k])) == ids[k]
    {
      IdTextDecodes(ids[k]);
    }
    var text := JoinIds(ids);
    assert text == Join(parts, ",");
    JoinAvoids(parts, ",", 'L');
    JoinAvoids(parts, ",", ')');
    StripIdentity(text);
    assert Strip(text) == text;
    SplitJoinChar(parts, ',');
    assert Tokens(text) == parts;
    FilterAllKept(parts, NonBlank);
    var tokens := if dropBlank then Filter(parts, NonBlank) else parts;
    assert tokens == parts;
    assert ParseTokens(parts) == ids;
  }
}

module IdListExamples {
  import opened JsString
  import opened JsNumber
  import opened IdList

  /** One leading blank is trimmed off a run of digits. */
  lemma {:induction false} TrimPaddedDigits(digits: string)
    requires |digits| > 0 && AllDigits(digits)
    ensures Trim(" " + digits) == digits
  {
    var s := " " + digits;
    assert s[1..] == digits;
    assert !IsSpace(digits[0]);
    assert TrimStart(s) == TrimStart(digits) == digits;
    TrimNoSpace(digits);
  }

  /** A token that strips to a run of digits, possibly after one blank,
      decodes to that number in either variant. */
  lemma {:induction false} DecodeDigitsToken(t: string, padded: bool, digits: string, dropBlank: bool)
    requires |digits| > 0 && AllDigits(digits)
    requires Strip(t) == (if padded then " " else "") + digits
    ensures Decode(t, dropBlank) == [Int(DigitsValue(digits))]
  {
    var st := Strip(t);
    assert ',' !in st by {
      forall i | 0 <= i < |st| ensures st[i] != ',' {
        if padded && i == 0 {
        } else {
          assert st[i] == digits[if padded then i - 1 else i];
        }
      }
    }
    assert Trim(st) == digits by {
      if padded {
        TrimPaddedDigits(digits);
      } else {
        assert st == digits;
        TrimNoSpace(digits);
      }
    }
    assert ParseInt(digits) == Int(DigitsValue(digits)) by {
      ParseIntIgnoresTail(digits, "");
      assert digits + "" == digits;
    }
    DecodeSingleToken(t, dropBlank);
  }

  /** Empty text: one NaN when blanks are kept, nothing when dropped. */
  lemma {:induction false} DecodeEmpty()
    ensures Decode("", false) == [NaN]
    ensures Decode("", true) == []
  {
    assert Strip("") == "";
    assert Trim("") == "";
    DecodeBlankText("");
  }

  /** An empty Scala list: `List()`. */
  lemma {:induction false} DecodeEmptyList()
    ensures Decode("List()", false) == [NaN]
    ensures Decode("List()", true) == []
  {
    StripRemovesEveryWrapper("", ")");
    assert "" + Wrapper + ")" == "List()";
    StripRemovesEveryParen("", "");
    assert "" + ")" + "" == ")";
    assert Strip("") == "";
    assert Strip("List()") == "";
    assert Trim("") == "";
    DecodeBlankText("List()");
  }

  /** Three comma-separated pieces decode to the ids of the pieces, in
      order. */
  lemma {:induction false} DecodeThreeTokens(a: string, b: string, c: string, x: Num, y: Num, z: Num, dropBlank: bool)
    requires Decode(a, dropBlank) == [x] && Decode(b, dropBlank) == [y] && Decode(c, dropBlank) == [z]
    ensures Decode(a + [','] + (b + [','] + c), dropBlank) == [x, y, z]
  {
    DecodeComma(b, c, dropBlank);
    DecodeComma(a, b + [','] + c, dropBlank);
  }

  lemma {:induction false} StripListThree(t: string)
    requires t == "List(3"
    ensures Strip(t) == "3"
  {
    StripRemovesEveryWrapper("", "3");
    assert "" + Wrapper + "3" == t;
    StripShort("");
    StripShort("3");
  }

  /** `List(3`: the wrapper goes, the digit stays. */
  lemma {:induction false} DecodeListThree(t: string, dropBlank: bool)
    requires t == "List(3"
    ensures Decode(t, dropBlank) == [Int(3)]
  {
    StripListThree(t);
    DecodeDigitsToken(t, false, "3", dropBlank);
    assert DigitsValue("3") == 3;
  }

  /** A blank before the digits is trimmed. */
  lemma {:induction false} DecodePaddedSeven(t: string, dropBlank: bool)
    requires t == " 7"
    ensures Decode(t, dropBlank) == [Int(7)]
  {
    assert Strip(t) == " 7" by {
      StripShort(t);
    }
    DecodeDigitsToken(t, true, "7", dropBlank);
    assert DigitsValue("7") == 7;
  }

  lemma {:induction false} StripNineParen(t: string)
    requires t == "9)"
    ensures Strip(t) == "9"
  {
    StripRemovesEveryParen("9", "");
    assert "9" + ")" + "" == t;
    StripShort("9");
    StripShort("");
  }

  /** The closing parenthesis goes, the digit stays. */
  lemma {:induction false} DecodeNineParen(t: string, dropBlank: bool)
    requires t == "9)"
    ensures Decode(t, dropBlank) == [Int(9)]
  {
    StripNineParen(t);
    DecodeDigitsToken(t, false, "9", dropBlank);
    assert DigitsValue("9") == 9;
  }

  lemma {:induction false} StripPaddedNineParen(t: string)
    requires t == " 9)"
    ensures Strip(t) == " 9"
  {
    StripRemovesEveryParen(" 9", "");
    assert " 9" + ")" + "" == t;
    StripShort(" 9");
    StripShort("");
  }

  /** The same after a blank. */
  lemma {:induction false} DecodePaddedNineParen(t: string, dropBlank: bool)
    requires t == " 9)"
    ensures Decode(t, dropBlank) == [Int(9)]
  {
    StripPaddedNineParen(t);
    DecodeDigitsToken(t, true, "9", dropBlank);
    assert DigitsValue("9") == 9;
  }

  /** A token whose first non-blank character is neither a sign nor a
      digit decodes to NaN in either variant: it is not blank, so it is
      never dropped. */
  lemma {:induction false} DecodeWordToken(t: string, word: string, dropBlank: bool)
    requires |word| > 0 && !IsDigit(word[0]) && word[0] != '-' && word[0] != '+'
    requires forall i :: 0 <= i < |word| ==> !IsSpace(word[i]) && word[i] != ','
    requires Strip(t) == " " + word
    ensures Decode(t, dropBlank) == [NaN]
  {
    var st := Strip(t);
    assert ',' !in st by {
      forall i | 0 <= i < |st| ensures st[i] != ',' {
        if i > 0 {
          assert st[i] == word[i - 1];
        }
      }
    }
    assert Trim(st) == word by {
      assert st[1..] == word;
      assert !IsSpace(word[0]);
      assert TrimStart(st) == TrimStart(word) == word;
      TrimNoSpace(word);
    }
    assert ParseInt(word) == NaN by {
      assert TrimStart(word) == word;
      ParseIntNaN(word);
    }
    assert !Blank(st);
    DecodeSingleToken(t, dropBlank);
  }

  /** A letter after a blank: NaN. */
  lemma {:induction false} DecodeLetter(t: string, dropBlank: bool)
    requires t == " a"
    ensures Decode(t, dropBlank) == [NaN]
  {
    assert Strip(t) == " a" by {
      StripShort(t);
    }
    DecodeWordToken(t, "a", dropBlank);
  }

  /** `List(3, 7,9)` decodes to 3, 7, 9 in that order. */
  lemma {:induction false} DecodeThreeIds(t: string, dropBlank: bool)
    requires t == "List(3, 7,9)"
    ensures Decode(t, dropBlank) == [Int(3), Int(7), Int(9)]
  {
    var a, b, c := "List(3", " 7", "9)";
    assert t == a + [','] + (b + [','] + c);
    DecodeListThree(a, dropBlank);
    DecodePaddedSeven(b, dropBlank);
    DecodeNineParen(c, dropBlank);
    DecodeThreeTokens(a, b, c, Int(3), Int(7), Int(9), dropBlank);
  }

  /** A token without digits becomes NaN in its place; the decoder does not
      fail and the other ids still parse. */
  lemma {:induction false} DecodeKeepsBadTokenAsNaN(t: string, dropBlank: bool)
    requires t == "List(3, a, 9)"
    ensures Decode(t, dropBlank) == [Int(3), NaN, Int(9)]
  {
    var a, b, c := "List(3", " a", " 9)";
    assert t == a + [','] + (b + [','] + c);
    DecodeListThree(a, dropBlank);
    DecodeLetter(b, dropBlank);
    DecodePaddedNineParen(c, dropBlank);
    DecodeThreeTokens(a, b, c, Int(3), NaN, Int(9), dropBlank);
  }
}
