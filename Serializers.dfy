/**
 * The input serializer of one payload entry. Its three fields are character fields (the
 * data field a list of them): each value is stripped of surrounding whitespace and must not
 * be blank. The data field is then checked by `validate_data`: each item is split on
 * whitespace, each token converted with `int()`, and the results concatenated in order. A
 * token that is not an integer, or an empty result, is a validation error.
 */
module Serializers {
  import opened Outcomes

  datatype ValidationError =
    | NotNumbers      // "All items in data must be numbers."
    | EmptyData       // "Data cannot be empty."
    | Blank           // a character field is blank: "This field may not be blank."
    | NullCharacter   // a character field holds U+0000: "Null characters are not allowed."

  /** One entry of the request payload, as received. */
  datatype InputData = InputData(id: string, data: seq<string>, deviceName: string)

  /** A validated entry: stripped id and device name, and the integers of the data field. */
  datatype ValidEntry = ValidEntry(id: string, data: seq<int>, deviceName: string)

  /** The serializer's errors for one entry: for each field that failed, why it did. */
  datatype EntryErrors = EntryErrors(id: Option<ValidationError>, data: Option<ValidationError>,
                                     deviceName: Option<ValidationError>)

  /** The characters Python's `str.split()` separates on (those for which `isspace()` holds). */
  predicate IsWhitespace(c: char)
  {
    var n := c as int;
    || 0x09 <= n <= 0x0D || 0x1C <= n <= 0x20 || n == 0x85 || n == 0xA0 || n == 0x1680
    || 0x2000 <= n <= 0x200A || n == 0x2028 || n == 0x2029 || n == 0x202F || n == 0x205F || n == 0x3000
  }

  predicate NoWhitespace(s: string)
  {
    forall i :: 0 <= i < |s| ==> !IsWhitespace(s[i])
  }

  /** The characters of `s` that are not whitespace, in order. */
  function Compact(s: string): string
  {
    if s == [] then []
    else if IsWhitespace(s[0]) then Compact(s[1..])
    else [s[0]] + Compact(s[1..])
  }

  function Concat(tokens: seq<string>): string
  {
    if tokens == [] then [] else tokens[0] + Concat(tokens[1..])
  }

  /**
   * `str.split()` with no separator, continuing a token `current` already begun: maximal
   * runs of non-whitespace, in order.
   */
  function SplitFrom(s: string, current: string): seq<string>
    decreases |s|
  {
    if s == [] then
      (if current == [] then [] else [current])
    else if IsWhitespace(s[0]) then
      var rest := SplitFrom(s[1..], []);
      if current == [] then rest else [current] + rest
    else
      SplitFrom(s[1..], current + [s[0]])
  }

  /**
   * The tokens are non-empty and free of whitespace, and put together again they give
   * back the non-whitespace characters of the input, in order.
   */
  lemma {:induction false} SplitFromSpec(s: string, current: string)
    requires NoWhitespace(current)
    ensures var tokens := SplitFrom(s, current);
      && (forall i :: 0 <= i < |tokens| ==> tokens[i] != [] && NoWhitespace(tokens[i]))
      && Concat(tokens) == current + Compact(s)
    decreases |s|
  {
    if s != [] {
      if IsWhitespace(s[0]) {
        SplitFromSpec(s[1..], []);
        var rest := SplitFrom(s[1..], []);
        if current != [] {
          assert ([current] + rest)[1..] == rest;
        }
      } else {
        SplitFromSpec(s[1..], current + [s[0]]);
        assert (current + [s[0]]) + Compact(s[1..]) == current + Compact(s);
      }
    }
  }

  function Split(s: string): seq<string>
  {
    SplitFrom(s, [])
  }

  /** The tokens written out with one separator character between neighbours. */
  function Join(tokens: seq<string>, sep: char): string
  {
    if tokens == [] then []
    else if |tokens| == 1 then tokens[0]
    else tokens[0] + [sep] + Join(tokens[1..], sep)
  }

  /** Characters without whitespace only extend the token being read. */
  lemma {:induction false} SplitFromWord(word: string, rest: string, current: string)
    requires NoWhitespace(current) && NoWhitespace(word)
    ensures SplitFrom(word + rest, current) == SplitFrom(rest, current + word)
    decreases |word|
  {
    if word != [] {
      assert (word + rest)[0] == word[0];
      assert (word + rest)[1..] == word[1..] + rest;
      assert current + word == (current + [word[0]]) + word[1..];
      SplitFromWord(word[1..], rest, current + [word[0]]);
    } else {
      assert word + rest == rest;
      assert current + word == current;
    }
  }

  /**
   * Token boundaries are exactly the whitespace: non-empty whitespace-free tokens joined by
   * any whitespace character split back into the same tokens, so no token is ever cut in
   * two or merged with its neighbour.
   */
  lemma {:induction false} SplitJoin(tokens: seq<string>, sep: char)
    requires IsWhitespace(sep)
    requires forall i :: 0 <= i < |tokens| ==> tokens[i] != [] && NoWhitespace(tokens[i])
    ensures Split(Join(tokens, sep)) == tokens
  {
    if |tokens| == 1 {
      SplitFromWord(tokens[0], [], []);
      assert tokens[0] + [] == tokens[0];
      assert [] + tokens[0] == tokens[0];
    } else if |tokens| > 1 {
      var rest := Join(tokens[1..], sep);
      assert Join(tokens, sep) == tokens[0] + ([sep] + rest);
      SplitFromWord(tokens[0], [sep] + rest, []);
      assert [] + tokens[0] == tokens[0];
      assert ([sep] + rest)[1..] == rest;
      SplitJoin(tokens[1..], sep);
      assert SplitFrom([sep] + rest, tokens[0]) == [tokens[0]] + SplitFrom(rest, []);
    }
  }

  /**
   * A word followed by a run of whitespace of any length is one token, and splitting goes on
   * after the run; with `SplitLeadingBlank` for leading whitespace and `SplitJoin` for a last
   * word, this fixes the split of every text.
   */
  lemma SplitWordGap(word: string, gap: string, rest: string)
    requires word != [] && NoWhitespace(word)
    requires gap != [] && IsBlank(gap)
    ensures Split(word + gap + rest) == [word] + Split(rest)
  {
    assert word + gap + rest == word + (gap + rest);
    SplitFromWord(word, gap + rest, []);
    assert [] + word == word;
    assert (gap + rest)[1..] == gap[1..] + rest;
    SplitLeadingBlank(gap[1..], rest);
  }

  /** An item made of whitespace only (or empty) splits into no tokens. */
  lemma {:induction false} BlankSplitsToNothing(s: string, current: string)
    requires NoWhitespace(current)
    requires forall i :: 0 <= i < |s| ==> IsWhitespace(s[i])
    ensures SplitFrom(s, current) == (if current == [] then [] else [current])
    decreases |s|
  {
    if s != [] {
      BlankSplitsToNothing(s[1..], []);
    }
  }

  /** Every character of `s` is whitespace (the empty string included). */
  predicate IsBlank(s: string)
  {
    forall i :: 0 <= i < |s| ==> IsWhitespace(s[i])
  }

  /** Leading whitespace removed. */
  function TrimStart(s: string): string
  {
    if s != [] && IsWhitespace(s[0]) then TrimStart(s[1..]) else s
  }

  /** Trailing whitespace removed. */
  function TrimEnd(s: string): string
  {
    if s != [] && IsWhitespace(s[|s| - 1]) then TrimEnd(s[..|s| - 1]) else s
  }

  /** `TrimStart` drops a blank prefix and keeps the rest, which starts with a non-space. */
  lemma {:induction false} TrimStartSpec(s: string)
    ensures var r := TrimStart(s);
      && |r| <= |s| && r == s[|s| - |r|..] && IsBlank(s[..|s| - |r|])
      && (r == [] || !IsWhitespace(r[0]))
  {
    if s != [] && IsWhitespace(s[0]) {
      TrimStartSpec(s[1..]);
      var r := TrimStart(s);
      assert s[..|s| - |r|] == [s[0]] + s[1..][..|s| - 1 - |r|];
    }
  }

  /** `TrimEnd` drops a blank suffix and keeps the rest, which ends with a non-space. */
  lemma {:induction false} TrimEndSpec(s: string)
    ensures var r := TrimEnd(s);
      && |r| <= |s| && r == s[..|r|] && IsBlank(s[|r|..])
      && (r == [] || !IsWhitespace(r[|r| - 1]))
  {
    if s != [] && IsWhitespace(s[|s| - 1]) {
      var p := s[..|s| - 1];
      TrimEndSpec(p);
      var r := TrimEnd(s);
      assert s[|r|..] == p[|r|..] + [s[|s| - 1]];
    }
  }

  /** `str.strip()`, which a character field applies to its input. */
  function Trim(s: string): string
  {
    if s != [] && IsWhitespace(s[0]) then Trim(s[1..]) else TrimEnd(s)
  }

  /** Stripping is removing the leading, then the trailing whitespace. */
  lemma {:induction false} TrimBothEnds(s: string)
    ensures Trim(s) == TrimEnd(TrimStart(s))
  {
    if s != [] && IsWhitespace(s[0]) {
      TrimBothEnds(s[1..]);
    }
  }

  /**
   * Stripping removes only surrounding whitespace: the result is a piece of `s` with
   * whitespace on both sides, and it neither starts nor ends with whitespace.
   */
  lemma TrimSpec(s: string)
    ensures exists a, b :: 0 <= a <= b <= |s| && Trim(s) == s[a..b] && IsBlank(s[..a]) && IsBlank(s[b..])
    ensures Trim(s) == [] || (!IsWhitespace(Trim(s)[0]) && !IsWhitespace(Trim(s)[|Trim(s)| - 1]))
  {
    var t := TrimStart(s);
    var a := |s| - |t|;
    var u := TrimEnd(t);
    var b := a + |u|;
    TrimStartSpec(s);
    TrimEndSpec(t);
    TrimBothEnds(s);
    assert u == s[a..b];
    assert s[b..] == t[|u|..];
    if u != [] {
      assert u[0] == t[0];
    }
  }

  /** A blank string loses all its characters to `TrimStart`. */
  lemma {:induction false} TrimStartBlank(s: string)
    requires IsBlank(s)
    ensures TrimStart(s) == []
  {
    if s != [] {
      TrimStartBlank(s[1..]);
    }
  }

  /** Stripping gives the empty string exactly for a blank string. */
  lemma TrimBlank(s: string)
    ensures Trim(s) == [] <==> IsBlank(s)
  {
    var t := TrimStart(s);
    var a := |s| - |t|;
    TrimStartSpec(s);
    TrimEndSpec(t);
    TrimBothEnds(s);
    if IsBlank(s) {
      TrimStartBlank(s);
    }
    if TrimEnd(t) == [] {
      assert t[0..] == t;
      assert t == [];
      assert s == s[..a];
    }
  }

  /** Leading whitespace yields no token. */
  lemma {:induction false} SplitLeadingBlank(w: string, s: string)
    requires IsBlank(w)
    ensures SplitFrom(w + s, []) == SplitFrom(s, [])
    decreases |w|
  {
    if w != [] {
      assert (w + s)[1..] == w[1..] + s;
      SplitLeadingBlank(w[1..], s);
    } else {
      assert w + s == s;
    }
  }

  /** Trailing whitespace yields no token. */
  lemma {:induction false} SplitTrailingBlank(s: string, w: string, current: string)
    requires IsBlank(w) && NoWhitespace(current)
    ensures SplitFrom(s + w, current) == SplitFrom(s, current)
    decreases |s|
  {
    if s == [] {
      assert s + w == w;
      BlankSplitsToNothing(w, current);
    } else {
      assert (s + w)[0] == s[0];
      assert (s + w)[1..] == s[1..] + w;
      if IsWhitespace(s[0]) {
        SplitTrailingBlank(s[1..], w, []);
      } else {
        SplitTrailingBlank(s[1..], w, current + [s[0]]);
      }
    }
  }

  /** Stripping an item does not change its tokens. */
  lemma SplitTrim(s: string)
    ensures Split(Trim(s)) == Split(s)
  {
    TrimBothEnds(s);
    SplitTrimStart(s);
    SplitTrimEnd(TrimStart(s));
  }

  lemma SplitTrimStart(s: string)
    ensures Split(TrimStart(s)) == Split(s)
  {
    TrimStartSpec(s);
    SplitAfterBlank(s, |s| - |TrimStart(s)|);
  }

  lemma SplitTrimEnd(t: string)
    ensures Split(TrimEnd(t)) == Split(t)
  {
    TrimEndSpec(t);
    SplitBeforeBlank(t, |TrimEnd(t)|);
  }

  lemma SplitAfterBlank(s: string, k: nat)
    requires k <= |s| && IsBlank(s[..k])
    ensures Split(s[k..]) == Split(s)
  {
    assert s == s[..k] + s[k..];
    SplitLeadingBlank(s[..k], s[k..]);
  }

  lemma SplitBeforeBlank(s: string, k: nat)
    requires k <= |s| && IsBlank(s[k..])
    ensures Split(s[..k]) == Split(s)
  {
    assert s == s[..k] + s[k..];
    SplitTrailingBlank(s[..k], s[k..], []);
  }

  predicate IsDigit(c: char)
  {
    '0' <= c <= '9'
  }

  predicate AllDigits(s: string)
  {
    forall i :: 0 <= i < |s| ==> IsDigit(s[i])
  }

  /** The value of a string of decimal digits, most significant first. */
  function DigitsValue(s: string): nat
    requires AllDigits(s)
  {
    if s == [] then 0
    else DigitsValue(s[..|s| - 1]) * 10 + (s[|s| - 1] as int - '0' as int)
  }

  /**
   * `int(token)` on a token from `str.split()`: an optional `+` or `-` followed by one or more
   * ASCII decimal digits; anything else is a `ValueError`, modelled as `None`.
   */
  function ParseInt(token: string): Option<int>
  {
    if |token| > 0 && (token[0] == '-' || token[0] == '+') then
      var digits := token[1..];
      if digits != [] && AllDigits(digits) then
        var magnitude: int := DigitsValue(digits);
        Some(if token[0] == '-' then -magnitude else magnitude)
      else None
    else if token != [] && AllDigits(token) then Some(DigitsValue(token))
    else None
  }

  /** Decimal digits of a natural number, as Python's `str` writes them. */
  function ShowNat(n: nat): (s: string)
    ensures s != [] && AllDigits(s)
  {
    if n < 10 then [('0' as int + n) as char]
    else ShowNat(n / 10) + [('0' as int + n % 10) as char]
  }

  /** `str(n)` for any integer. */
  function Show(n: int): string
  {
    if n < 0 then "-" + ShowNat(-n) else ShowNat(n)
  }

  lemma {:induction false} ShowNatValue(n: nat)
    ensures DigitsValue(ShowNat(n)) == n
  {
    var s := ShowNat(n);
    if n >= 10 {
      ShowNatValue(n / 10);
      assert s[..|s| - 1] == ShowNat(n / 10);
    }
  }

  /** Every integer written out by `str` is read back by `int()` as the same integer. */
  lemma ParseShow(n: int)
    ensures ParseInt(Show(n)) == Some(n)
  {
    if n < 0 {
      var digits := ShowNat(-n);
      ShowNatValue(-n);
      assert Show(n) == "-" + digits;
      assert Show(n)[0] == '-' && Show(n)[1..] == digits;
    } else {
      var digits := ShowNat(n);
      ShowNatValue(n);
      assert IsDigit(digits[0]);
    }
  }

  /** The list comprehension `[int(num) for num in tokens]`: `None` as soon as one token fails. */
  function ParseTokens(tokens: seq<string>): Option<seq<int>>
  {
    if tokens == [] then Some([])
    else
      match ParseInt(tokens[0])
      case None => None
      case Some(x) =>
        match ParseTokens(tokens[1..])
        case None => None
        case Some(rest) => Some([x] + rest)
  }

  /**
   * The comprehension succeeds exactly when every token converts, and then holds one
   * integer per token, in token order.
   */
  lemma {:induction false} ParseTokensSpec(tokens: seq<string>)
    ensures ParseTokens(tokens).Some? <==> forall i :: 0 <= i < |tokens| ==> ParseInt(tokens[i]).Some?
    ensures ParseTokens(tokens).Some? ==>
      && |ParseTokens(tokens).value| == |tokens|
      && forall i :: 0 <= i < |tokens| ==> ParseInt(tokens[i]) == Some(ParseTokens(tokens).value[i])
  {
    if tokens != [] {
      ParseTokensSpec(tokens[1..]);
      if ParseInt(tokens[0]).Some? && ParseTokens(tokens[1..]).Some? {
        var r := ParseTokens(tokens).value;
        forall i | 0 <= i < |tokens|
          ensures ParseInt(tokens[i]) == Some(r[i])
        {
          if i > 0 {
            assert tokens[i] == tokens[1..][i - 1];
          }
        }
      } else if ParseInt(tokens[0]).Some? {
        var k :| 0 <= k < |tokens[1..]| && ParseInt(tokens[1..][k]).None?;
        assert ParseInt(tokens[k + 1]).None?;
      }
    }
  }

  /** The tokens of all items, item after item. */
  function Tokens(items: seq<string>): seq<string>
  {
    if items == [] then [] else Split(items[0]) + Tokens(items[1..])
  }

  lemma {:induction false} TokensAppend(a: seq<string>, b: seq<string>)
    ensures Tokens(a + b) == Tokens(a) + Tokens(b)
  {
    if a == [] {
      assert a + b == b;
    } else {
      assert (a + b)[1..] == a[1..] + b;
      TokensAppend(a[1..], b);
    }
  }

  lemma {:induction false} ParseTokensAppend(a: seq<string>, b: seq<string>)
    ensures ParseTokens(a + b) ==
      if ParseTokens(a).Some? && ParseTokens(b).Some? then Some(ParseTokens(a).value + ParseTokens(b).value) else None
  {
    if a == [] {
      assert a + b == b;
      if ParseTokens(b).Some? {
        assert [] + ParseTokens(b).value == ParseTokens(b).value;
      }
    } else {
      assert (a + b)[0] == a[0];
      assert (a + b)[1..] == a[1..] + b;
      ParseTokensAppend(a[1..], b);
      var head, tail, rb := ParseInt(a[0]), ParseTokens(a[1..]), ParseTokens(b);
      if head.None? {
        assert ParseTokens(a + b) == None;
      } else if tail.None? {
        assert ParseTokens(a) == None;
      } else if rb.None? {
        assert ParseTokens(a[1..] + b) == None;
      } else {
        assert ParseTokens(a) == Some([head.value] + tail.value);
        assert ParseTokens(a + b) == Some([head.value] + (tail.value + rb.value));
        assert [head.value] + (tail.value + rb.value) == [head.value] + tail.value + rb.value;
      }
    }
  }

  /** What the field check returns for `data`. */
  function Validated(items: seq<string>): Result<seq<int>, ValidationError>
  {
    match ParseTokens(Tokens(items))
    case None => Failure(NotNumbers)
    case Some(values) => if values == [] then Failure(EmptyData) else Success(values)
  }

  /**
   * The outcome in closed form: success exactly when every token is an integer literal and
   * there is at least one token; then one integer per token, in order. A bad token anywhere
   * is reported before emptiness.
   */
  lemma ValidatedSpec(items: seq<string>)
    ensures Validated(items).Success? <==>
      (forall i :: 0 <= i < |Tokens(items)| ==> ParseInt(Tokens(items)[i]).Some?) && Tokens(items) != []
    ensures Validated(items).Success? ==>
      |Validated(items).value| == |Tokens(items)| > 0 &&
      forall i :: 0 <= i < |Tokens(items)| ==> ParseInt(Tokens(items)[i]) == Some(Validated(items).value[i])
    ensures Validated(items) == Failure(NotNumbers) <==>
      exists i :: 0 <= i < |Tokens(items)| && ParseInt(Tokens(items)[i]).None?
  {
    ParseTokensSpec(Tokens(items));
  }

  /** A whitespace-only item contributes no value and causes no error by itself. */
  lemma {:induction false} BlankItemIgnored(items: seq<string>, blank: string)
    requires forall i :: 0 <= i < |blank| ==> IsWhitespace(blank[i])
    ensures Validated(items + [blank]) == Validated(items)
  {
    BlankSplitsToNothing(blank, []);
    TokensAppend(items, [blank]);
    assert Tokens([blank]) == Split(blank) + Tokens([]);
    assert Tokens(items) + Tokens([blank]) == Tokens(items);
  }

  /** The NUL character, which no character field accepts. */
  const Nul: char := 0 as char

  /**
   * One character field (`trim_whitespace` and `allow_blank=False` by default): the value is
   * stripped, refused when blank, and then refused when it holds a NUL character.
   */
  function CharField(s: string): Result<string, ValidationError>
  {
    var t := Trim(s);
    if t == [] then Failure(Blank)
    else if Nul in t then Failure(NullCharacter)
    else Success(t)
  }

  /** Stripping never removes a NUL character, as NUL is not whitespace. */
  lemma TrimKeepsNul(s: string)
    ensures Nul in Trim(s) <==> Nul in s
  {
    TrimBothEnds(s);
    TrimStartKeepsNul(s);
    TrimEndKeepsNul(TrimStart(s));
  }

  lemma {:induction false} TrimStartKeepsNul(s: string)
    ensures Nul in TrimStart(s) <==> Nul in s
  {
    if s != [] && IsWhitespace(s[0]) {
      TrimStartKeepsNul(s[1..]);
      assert s == [s[0]] + s[1..];
    }
  }

  lemma {:induction false} TrimEndKeepsNul(s: string)
    ensures Nul in TrimEnd(s) <==> Nul in s
  {
    if s != [] && IsWhitespace(s[|s| - 1]) {
      TrimEndKeepsNul(s[..|s| - 1]);
      assert s == s[..|s| - 1] + [s[|s| - 1]];
    }
  }

  /**
   * A character field passes exactly when its value is neither blank nor holds a NUL
   * character, and then hands on the stripped value; blankness is reported first.
   */
  lemma CharFieldSpec(s: string)
    ensures CharField(s).Success? <==> !IsBlank(s) && Nul !in s
    ensures CharField(s) == Failure(Blank) <==> IsBlank(s)
    ensures CharField(s).Success? ==> CharField(s).value == Trim(s)
  {
    TrimBlank(s);
    TrimKeepsNul(s);
  }

  /**
   * The list field with its child character field: each item through the character field, in
   * order, stopping at the first item it refuses.
   */
  function ListField(items: seq<string>): (r: Result<seq<string>, ValidationError>)
    ensures r.Failure? ==> r.error == Blank || r.error == NullCharacter
  {
    if items == [] then Success([])
    else
      match CharField(items[0])
      case Failure(e) => Failure(e)
      case Success(first) =>
        match ListField(items[1..])
        case Failure(e) => Failure(e)
        case Success(rest) => Success([first] + rest)
  }

  /**
   * The list field passes exactly when every item passes the character field, and then hands
   * on every item stripped; otherwise it reports the first item that fails.
   */
  lemma {:induction false} ListFieldSpec(items: seq<string>)
    ensures ListField(items).Success? <==> forall k :: 0 <= k < |items| ==> CharField(items[k]).Success?
    ensures ListField(items).Success? ==>
      |ListField(items).value| == |items| &&
      forall k :: 0 <= k < |items| ==> ListField(items).value[k] == Trim(items[k])
    ensures ListField(items).Failure? ==>
      exists k :: 0 <= k < |items| && CharField(items[k]) == Failure(ListField(items).error) &&
        forall j :: 0 <= j < k ==> CharField(items[j]).Success?
  {
    if items != [] {
      ListFieldSpec(items[1..]);
      CharFieldSpec(items[0]);
      assert forall k :: 1 <= k < |items| ==> items[k] == items[1..][k - 1];
      var r := ListField(items);
      if r.Failure? && CharField(items[0]).Success? {
        var k :| 0 <= k < |items[1..]| && CharField(items[1..][k]) == Failure(r.error) &&
          forall j :: 0 <= j < k ==> CharField(items[1..][j]).Success?;
        assert CharField(items[k + 1]) == Failure(r.error);
      }
    }
  }

  /** Stripping every item keeps the tokens of the list. */
  lemma {:induction false} StrippedTokens(items: seq<string>, stripped: seq<string>)
    requires |stripped| == |items|
    requires forall k :: 0 <= k < |items| ==> stripped[k] == Trim(items[k])
    ensures Tokens(stripped) == Tokens(items)
  {
    if items != [] {
      SplitTrim(items[0]);
      StrippedTokens(items[1..], stripped[1..]);
    }
  }

  /**
   * The whole `data` field: the list field refuses a blank item or one holding a NUL
   * character before `validate_data` runs on the stripped items.
   */
  function DataField(items: seq<string>): Result<seq<int>, ValidationError>
  {
    match ListField(items)
    case Failure(e) => Failure(e)
    case Success(stripped) => Validated(stripped)
  }

  /**
   * The data field fails with the first refused item's reason whatever else the list holds;
   * when every item passes, it gives what `validate_data` gives for the items as received,
   * since stripping keeps the tokens.
   */
  lemma DataFieldSpec(items: seq<string>)
    ensures (exists k :: 0 <= k < |items| && CharField(items[k]).Failure?) ==>
      ListField(items).Failure? && DataField(items) == Failure(ListField(items).error) &&
      (DataField(items).error == Blank || DataField(items).error == NullCharacter)
    ensures (forall k :: 0 <= k < |items| ==> CharField(items[k]).Success?) ==> DataField(items) == Validated(items)
  {
    ListFieldSpec(items);
    if ListField(items).Success? {
      StrippedTokens(items, ListField(items).value);
    }
  }

  /**
   * A blank item, which `validate_data` alone would skip, makes the data field fail: with the
   * blank-field error, unless an earlier item was already refused.
   */
  lemma BlankItemRejected(items: seq<string>, blank: string)
    requires IsBlank(blank)
    ensures DataField(items + [blank]) ==
      Failure(if ListField(items).Failure? then ListField(items).error else Blank)
  {
    var all := items + [blank];
    assert all[|items|] == blank;
    assert all[..|items|] == items;
    CharFieldSpec(blank);
    ListFieldSpec(items);
    ListFieldSpec(all);
    if ListField(items).Failure? {
      var k :| 0 <= k < |items| && CharField(items[k]) == Failure(ListField(items).error) &&
        forall j :: 0 <= j < k ==> CharField(items[j]).Success?;
      assert all[k] == items[k];
      FirstRefusal(all, k);
    } else {
      FirstRefusal(all, |items|);
    }
  }

  /** The item at `k` is the first refused one, so the list field reports its reason. */
  lemma {:induction false} FirstRefusal(items: seq<string>, k: nat)
    requires k < |items| && CharField(items[k]).Failure?
    requires forall j :: 0 <= j < k ==> CharField(items[j]).Success?
    ensures ListField(items) == Failure(CharField(items[k]).error)
    decreases k
  {
    if k > 0 {
      assert forall j :: 0 <= j < k - 1 ==> items[1..][j] == items[j + 1];
      FirstRefusal(items[1..], k - 1);
    }
  }

  /** The error a field check reports, if it reports one. */
  function ErrorOf<T>(r: Result<T, ValidationError>): Option<ValidationError>
  {
    if r.Failure? then Some(r.error) else None
  }

  /**
   * `is_valid()` of the input serializer on one entry: the id and the device name go through
   * the character field and the data through the data field. All failing fields are reported
   * together.
   */
  function CheckEntry(entry: InputData): Result<ValidEntry, EntryErrors>
  {
    var id, data, device := CharField(entry.id), DataField(entry.data), CharField(entry.deviceName);
    if id.Failure? || data.Failure? || device.Failure? then
      Failure(EntryErrors(ErrorOf(id), ErrorOf(data), ErrorOf(device)))
    else Success(ValidEntry(id.value, data.value, device.value))
  }

  /**
   * An entry is valid exactly when neither the id, the device name nor any data item is blank
   * or holds a NUL character, and `validate_data` accepts the items; the validated entry
   * carries the stripped id and device name and the integers of the data. On failure each
   * field is reported as blank exactly when it is blank, and as failing exactly when it does.
   */
  lemma CheckEntrySpec(entry: InputData)
    ensures CheckEntry(entry).Success? <==>
      && !IsBlank(entry.id) && Nul !in entry.id
      && !IsBlank(entry.deviceName) && Nul !in entry.deviceName
      && (forall k :: 0 <= k < |entry.data| ==> !IsBlank(entry.data[k]) && Nul !in entry.data[k])
      && Validated(entry.data).Success?
    ensures CheckEntry(entry).Success? ==>
      CheckEntry(entry).value == ValidEntry(Trim(entry.id), Validated(entry.data).value, Trim(entry.deviceName))
    ensures CheckEntry(entry).Failure? ==>
      && (CheckEntry(entry).error.id == Some(Blank) <==> IsBlank(entry.id))
      && (CheckEntry(entry).error.id.None? <==> !IsBlank(entry.id) && Nul !in entry.id)
      && (CheckEntry(entry).error.deviceName == Some(Blank) <==> IsBlank(entry.deviceName))
      && (CheckEntry(entry).error.deviceName.None? <==> !IsBlank(entry.deviceName) && Nul !in entry.deviceName)
  {
    CharFieldSpec(entry.id);
    CharFieldSpec(entry.deviceName);
    DataFieldSpec(entry.data);
    forall k | 0 <= k < |entry.data|
      ensures CharField(entry.data[k]).Success? <==> !IsBlank(entry.data[k]) && Nul !in entry.data[k]
    {
      CharFieldSpec(entry.data[k]);
    }
  }

  /** Reading one more item appends its integers to those of the items before it. */
  lemma ParsedPrefixStep(items: seq<string>, i: nat)
    requires i < |items|
    ensures ParseTokens(Tokens(items[..i + 1])) ==
      var before, next := ParseTokens(Tokens(items[..i])), ParseTokens(Split(items[i]));
      if before.Some? && next.Some? then Some(before.value + next.value) else None
  {
    TokensAppend(items[..i], [items[i]]);
    assert items[..i + 1] == items[..i] + [items[i]];
    assert Tokens([items[i]]) == Split(items[i]);
    ParseTokensAppend(Tokens(items[..i]), Split(items[i]));
  }

  /** Once a prefix of the items fails to convert, the whole list does. */
  lemma ParseFailureSticks(items: seq<string>, i: nat)
    requires i <= |items| && ParseTokens(Tokens(items[..i])).None?
    ensures ParseTokens(Tokens(items)).None?
  {
    TokensAppend(items[..i], items[i..]);
    assert items[..i] + items[i..] == items;
    ParseTokensAppend(Tokens(items[..i]), Tokens(items[i..]));
  }

  /** `validate_data`: the loop over the items, extending the flat list with each item's integers. */
  method ValidateData(items: seq<string>) returns (r: Result<seq<int>, ValidationError>)
    ensures r == Validated(items)
  {
    var flat: seq<int> := [];
    var i := 0;
    while i < |items|
      invariant 0 <= i <= |items|
      invariant ParseTokens(Tokens(items[..i])) == Some(flat)
    {
      var parsed := ParseTokens(Split(items[i]));
      ParsedPrefixStep(items, i);
      if parsed.None? {
        ParseFailureSticks(items, i + 1);
        return Failure(NotNumbers);
      }
      flat := flat + parsed.value;
      i := i + 1;
    }
    assert items[..i] == items;
    if flat == [] {
      return Failure(EmptyData);
    }
    return Success(flat);
  }

  /** `is_valid()` as the service calls it: the field checks, then `validate_data` on the data. */
  method ValidateEntry(entry: InputData) returns (r: Result<ValidEntry, EntryErrors>)
    ensures r == CheckEntry(entry)
  {
    var id, device := CharField(entry.id), CharField(entry.deviceName);
    var data: Result<seq<int>, ValidationError>;
    var field := ListField(entry.data);
    if field.Failure? {
      data := Failure(field.error);
    } else {
      data := ValidateData(field.value);
    }
    assert data == DataField(entry.data);
    if id.Failure? || data.Failure? || device.Failure? {
      return Failure(EntryErrors(ErrorOf(id), ErrorOf(data), ErrorOf(device)));
    }
    return Success(ValidEntry(id.value, data.value, device.value));
  }
}
