/**
  The string tokens the bot puts into inline buttons and invoices, and the
  Python string operations that take them apart again.

  Buttons carry `view_content_<id>`, `buy_content_<id>` or
  `manage_content_<id>`; an invoice carries the payload `content_<id>`.
  The handlers recover the id with `int(data.split("_")[2])` and
  `int(payload.split("_")[1])`. This module models `str.split` with a
  one-character separator, `str(n)` for a non-negative integer and `int(s)`
  for base-10 text, and proves that every token decodes to the id it was
  built from.
*/
module Tokens {
  import opened Wrappers

  /** Why a token could not be decoded: the exception Python raises. */
  datatype TokenError =
    | MissingField  // IndexError: the split has too few parts
    | NotAnInteger  // ValueError: int() rejects the part

  // ---------------------------------------------------------------------
  // str.split(sep) and its inverse "sep".join(parts)
  // ---------------------------------------------------------------------

  /** Python's `s.split(sep)` for a one-character separator: every
      occurrence separates, empty parts are kept, the result is never empty. */
  function Split(s: string, sep: char): (parts: seq<string>)
    ensures |parts| >= 1
    ensures forall i :: 0 <= i < |parts| ==> sep !in parts[i]
    decreases |s|
  {
    if s == [] then [[]]
    else
      var rest := Split(s[1..], sep);
      if s[0] == sep then [[]] + rest
      else [[s[0]] + rest[0]] + rest[1..]
  }

  /** Python's `sep.join(parts)`. */
  function Join(parts: seq<string>, sep: char): string
    requires |parts| >= 1
    decreases |parts|
  {
    if |parts| == 1 then parts[0]
    else parts[0] + [sep] + Join(parts[1..], sep)
  }

  /** Joining the parts of a split gives back the original string. */
  lemma {:induction false} JoinSplit(s: string, sep: char)
    ensures Join(Split(s, sep), sep) == s
    decreases |s|
  {
    if s != [] {
      JoinSplit(s[1..], sep);
      var rest := Split(s[1..], sep);
      if s[0] == sep {
        assert Split(s, sep)[1..] == rest;
      } else {
        var parts := Split(s, sep);
        if |rest| == 1 {
          assert parts == [[s[0]] + rest[0]];
        } else {
          assert parts[1..] == rest[1..];
          assert Join(rest, sep) == rest[0] + [sep] + Join(rest[1..], sep);
        }
      }
      assert s == [s[0]] + s[1..];
    }
  }

  /** A string free of the separator is one part. */
  lemma {:induction false} SplitWithoutSeparator(a: string, sep: char)
    requires sep !in a
    ensures Split(a, sep) == [a]
    decreases |a|
  {
    if a != [] {
      assert sep !in a[1..] by {
        forall i | 0 <= i < |a[1..]| ensures a[1..][i] != sep {
          assert a[1..][i] == a[i + 1];
        }
      }
      SplitWithoutSeparator(a[1..], sep);
      assert [a[0]] + a[1..] == a;
    }
  }

  /** A separator-free head followed by the separator splits off as the first part. */
  lemma {:induction false} SplitAfterField(a: string, t: string, sep: char)
    requires sep !in a
    ensures Split(a + [sep] + t, sep) == [a] + Split(t, sep)
    decreases |a|
  {
    var s := a + [sep] + t;
    if a == [] {
      assert s[1..] == t;
    } else {
      assert s[1..] == a[1..] + [sep] + t;
      assert sep !in a[1..] by {
        forall i | 0 <= i < |a[1..]| ensures a[1..][i] != sep {
          assert a[1..][i] == a[i + 1];
        }
      }
      SplitAfterField(a[1..], t, sep);
      assert [a[0]] + a[1..] == a;
    }
  }

  /** Splitting a join of separator-free parts gives back the parts. */
  lemma {:induction false} SplitJoin(parts: seq<string>, sep: char)
    requires |parts| >= 1
    requires forall i :: 0 <= i < |parts| ==> sep !in parts[i]
    ensures Split(Join(parts, sep), sep) == parts
    decreases |parts|
  {
    if |parts| == 1 {
      SplitWithoutSeparator(parts[0], sep);
    } else {
      SplitJoin(parts[1..], sep);
      SplitAfterField(parts[0], Join(parts[1..], sep), sep);
      assert [parts[0]] + parts[1..] == parts;
    }
  }

  /** How often c occurs in s. */
  function Occurrences(s: string, c: char): nat
    decreases |s|
  {
    if s == [] then 0 else (if s[0] == c then 1 else 0) + Occurrences(s[1..], c)
  }

  /** `s.split(sep)` has one part more than s has separators. */
  lemma {:induction false} SplitLength(s: string, sep: char)
    ensures |Split(s, sep)| == Occurrences(s, sep) + 1
    decreases |s|
  {
    if s != [] {
      SplitLength(s[1..], sep);
    }
  }

  // ---------------------------------------------------------------------
  // str(n) and int(s) in base 10
  // ---------------------------------------------------------------------

  predicate IsDigit(c: char) {
    '0' <= c <= '9'
  }

  predicate AllDigits(s: string) {
    forall i :: 0 <= i < |s| ==> IsDigit(s[i])
  }

  /** The ASCII characters `int()` treats as white space around the digits. */
  predicate IsSpace(c: char) {
    c == ' ' || c == '\t' || c == '\n' || c == '\r' || c == '\U{000B}' || c == '\U{000C}'
  }

  function DigitChar(d: nat): (c: char)
    requires d < 10
  {
    (48 + d) as char
  }

  function DigitValue(c: char): (d: nat)
    requires IsDigit(c)
  {
    c as int - 48
  }

  /** `str(n)` for a non-negative integer: decimal digits, no leading zero. */
  function NatToDecimal(n: nat): (s: string)
    ensures |s| >= 1 && AllDigits(s)
    ensures |s| > 1 ==> s[0] != '0'
    decreases n
  {
    if n < 10 then [DigitChar(n)]
    else NatToDecimal(n / 10) + [DigitChar(n % 10)]
  }

  /** The number a string of decimal digits denotes (leading zeros allowed). */
  function DigitsValue(s: string): nat
    requires AllDigits(s)
    decreases |s|
  {
    if s == [] then 0
    else DigitsValue(s[..|s| - 1]) * 10 + DigitValue(s[|s| - 1])
  }

  function StripLeft(s: string): string
    decreases |s|
  {
    if s != [] && IsSpace(s[0]) then StripLeft(s[1..]) else s
  }

  function StripRight(s: string): string
    decreases |s|
  {
    if s != [] && IsSpace(s[|s| - 1]) then StripRight(s[..|s| - 1]) else s
  }

  /** Stripping white space keeps only characters of the original string. */
  lemma {:induction false} StripLeftKeepsCharacters(s: string)
    ensures forall c :: c in StripLeft(s) ==> c in s
    decreases |s|
  {
    if s != [] && IsSpace(s[0]) {
      StripLeftKeepsCharacters(s[1..]);
    }
  }

  lemma {:induction false} StripRightKeepsCharacters(s: string)
    ensures forall c :: c in StripRight(s) ==> c in s
    decreases |s|
  {
    if s != [] && IsSpace(s[|s| - 1]) {
      StripRightKeepsCharacters(s[..|s| - 1]);
    }
  }

  /** Python's `int(s)` in base 10: surrounding white space, an optional sign,
      then one or more digits; anything else raises ValueError (None here).
      A plain digit string (leading zeros allowed) reads as its value, and a
      string without any digit is always rejected. */
  function ParseInt(s: string): (r: Option<int>)
    ensures s != [] && AllDigits(s) ==> r == Some(DigitsValue(s))
    ensures (forall i :: 0 <= i < |s| ==> !IsDigit(s[i])) ==> r.None?
  {
    StripLeftKeepsCharacters(s);
    StripRightKeepsCharacters(StripLeft(s));
    var t := StripRight(StripLeft(s));
    if t == [] then None
    else if t[0] == '-' || t[0] == '+' then
      var digits := t[1..];
      if digits != [] && AllDigits(digits) then
        assert t[1] in t;
        Some(if t[0] == '-' then -(DigitsValue(digits) as int) else DigitsValue(digits))
      else None
    else if AllDigits(t) then
      assert t[0] in t;
      Some(DigitsValue(t))
    else None
  }

  /** Reading back the decimal form of n gives n. */
  lemma {:induction false} DigitsValueOfDecimal(n: nat)
    ensures DigitsValue(NatToDecimal(n)) == n
    decreases n
  {
    var s := NatToDecimal(n);
    if n >= 10 {
      assert s[..|s| - 1] == NatToDecimal(n / 10);
      DigitsValueOfDecimal(n / 10);
    }
  }

  /** `int(str(n)) == n` for every non-negative n. */
  lemma {:induction false} ParseIntOfDecimal(n: nat)
    ensures ParseInt(NatToDecimal(n)) == Some(n)
  {
    DigitsValueOfDecimal(n);
  }

  /** `int("-" + str(n)) == -n`: a signed part still decodes. */
  lemma ParseIntOfNegativeDecimal(n: nat)
    ensures ParseInt("-" + NatToDecimal(n)) == Some(-(n as int))
  {
    var s := "-" + NatToDecimal(n);
    assert s[1..] == NatToDecimal(n);
    DigitsValueOfDecimal(n);
  }

  lemma {:induction false} DigitsValuePositive(s: string)
    requires |s| >= 1 && AllDigits(s) && s[0] != '0'
    ensures DigitsValue(s) >= 1
    decreases |s|
  {
    if |s| > 1 {
      DigitsValuePositive(s[..|s| - 1]);
    }
  }

  /** `str(int(s)) == s` for a canonical digit string (no leading zero): the
      decimal form is the one and only canonical spelling of a number. */
  lemma {:induction false} DecimalOfDigitsValue(s: string)
    requires |s| >= 1 && AllDigits(s)
    requires |s| > 1 ==> s[0] != '0'
    ensures NatToDecimal(DigitsValue(s)) == s
    decreases |s|
  {
    if |s| > 1 {
      var p := s[..|s| - 1];
      DigitsValuePositive(p);
      DecimalOfDigitsValue(p);
      assert p + [s[|s| - 1]] == s;
    }
  }

  // ---------------------------------------------------------------------
  // Tokens
  // ---------------------------------------------------------------------

  const ViewPrefix: string := "view_content_"
  const BuyPrefix: string := "buy_content_"
  const ManagePrefix: string := "manage_content_"
  const PayloadPrefix: string := "content_"

  predicate StartsWith(s: string, prefix: string) {
    |prefix| <= |s| && s[..|prefix|] == prefix
  }

  /** Behind `word1_word2_` the split goes on with the split of the rest. */
  lemma SplitBehindPrefix(w1: string, w2: string, rest: string)
    requires '_' !in w1 && '_' !in w2
    ensures Split(w1 + "_" + w2 + "_" + rest, '_') == [w1, w2] + Split(rest, '_')
  {
    SplitAfterField(w2, rest, '_');
    SplitAfterField(w1, w2 + "_" + rest, '_');
    assert w1 + "_" + w2 + "_" + rest == w1 + ['_'] + (w2 + ['_'] + rest);
  }

  /** `int(s.split("_")[k])`, with the exception it raises as an error value:
      IndexError exactly when s has fewer than k underscores, and otherwise
      the value `int()` gives part k, or ValueError. */
  function FieldAsInt(s: string, k: nat): (r: Result<int, TokenError>)
    ensures r == Err(MissingField) <==> Occurrences(s, '_') < k
    ensures r.Ok? ==> k < |Split(s, '_')| && ParseInt(Split(s, '_')[k]) == Some(r.value)
    ensures k < |Split(s, '_')| && ParseInt(Split(s, '_')[k]).Some? ==> r == Ok(ParseInt(Split(s, '_')[k]).value)
  {
    SplitLength(s, '_');
    var parts := Split(s, '_');
    if |parts| <= k then Err(MissingField)
    else match ParseInt(parts[k])
      case Some(n) => Ok(n)
      case None => Err(NotAnInteger)
  }

  /** The id of a `view_content_` / `buy_content_` callback, the third field.
      Behind either prefix the field is always present, so decoding can only
      fail in `int()`. */
  function CallbackId(data: string): (r: Result<int, TokenError>)
    ensures StartsWith(data, ViewPrefix) || StartsWith(data, BuyPrefix) ==> r != Err(MissingField)
  {
    SplitLength(data, '_');
    if StartsWith(data, ViewPrefix) then
      assert data == "view" + "_" + "content" + "_" + data[|ViewPrefix|..];
      SplitBehindPrefix("view", "content", data[|ViewPrefix|..]);
      FieldAsInt(data, 2)
    else if StartsWith(data, BuyPrefix) then
      assert data == "buy" + "_" + "content" + "_" + data[|BuyPrefix|..];
      SplitBehindPrefix("buy", "content", data[|BuyPrefix|..]);
      FieldAsInt(data, 2)
    else FieldAsInt(data, 2)
  }

  /** The content id of an invoice payload, the second field. Behind the
      `content_` prefix the field is always present. */
  function PayloadContentId(payload: string): (r: Result<int, TokenError>)
    ensures StartsWith(payload, PayloadPrefix) ==> r != Err(MissingField)
  {
    SplitLength(payload, '_');
    if StartsWith(payload, PayloadPrefix) then
      assert payload == "content" + ['_'] + payload[|PayloadPrefix|..];
      SplitAfterField("content", payload[|PayloadPrefix|..], '_');
      FieldAsInt(payload, 1)
    else FieldAsInt(payload, 1)
  }

  /** The parts of `word1_word2_<digits>` are exactly its three words. */
  lemma SplitTwoWordToken(w1: string, w2: string, id: nat)
    requires '_' !in w1 && '_' !in w2
    ensures Split(w1 + "_" + w2 + "_" + NatToDecimal(id), '_') == [w1, w2, NatToDecimal(id)]
  {
    SplitWithoutSeparator(NatToDecimal(id), '_');
    SplitBehindPrefix(w1, w2, NatToDecimal(id));
  }

  /** `f"view_content_{id}"`, the catalog button: it passes the view prefix
      test, and `int(data.split("_")[2])` recovers id. */
  function ViewToken(id: nat): (t: string)
    ensures StartsWith(t, ViewPrefix) && CallbackId(t) == Ok(id)
  {
    SplitTwoWordToken("view", "content", id);
    ParseIntOfDecimal(id);
    assert ViewPrefix + NatToDecimal(id) == "view" + "_" + "content" + "_" + NatToDecimal(id);
    ViewPrefix + NatToDecimal(id)
  }

  /** `f"buy_content_{id}"`, the button under a locked preview: it passes the
      buy prefix test, is never taken for a view button, and decodes to id. */
  function BuyToken(id: nat): (t: string)
    ensures StartsWith(t, BuyPrefix) && !StartsWith(t, ViewPrefix) && CallbackId(t) == Ok(id)
  {
    SplitTwoWordToken("buy", "content", id);
    ParseIntOfDecimal(id);
    assert BuyPrefix + NatToDecimal(id) == "buy" + "_" + "content" + "_" + NatToDecimal(id);
    assert (BuyPrefix + NatToDecimal(id))[0] == 'b';
    BuyPrefix + NatToDecimal(id)
  }

  /** `f"manage_content_{id}"`, the button of the administration list: it
      carries its id in the third field too, but matches neither the view
      nor the buy prefix. */
  function ManageToken(id: nat): (t: string)
    ensures StartsWith(t, ManagePrefix) && !StartsWith(t, ViewPrefix) && !StartsWith(t, BuyPrefix)
    ensures CallbackId(t) == Ok(id)
  {
    SplitTwoWordToken("manage", "content", id);
    ParseIntOfDecimal(id);
    assert ManagePrefix + NatToDecimal(id) == "manage" + "_" + "content" + "_" + NatToDecimal(id);
    assert (ManagePrefix + NatToDecimal(id))[0] == 'm';
    ManagePrefix + NatToDecimal(id)
  }

  /** `f"content_{id}"`, the invoice payload: `int(payload.split("_")[1])`
      recovers id. */
  function PayloadToken(id: nat): (t: string)
    ensures StartsWith(t, PayloadPrefix) && PayloadContentId(t) == Ok(id)
  {
    var d := NatToDecimal(id);
    SplitWithoutSeparator(d, '_');
    SplitAfterField("content", d, '_');
    ParseIntOfDecimal(id);
    assert PayloadPrefix + d == "content" + ['_'] + d;
    PayloadPrefix + d
  }

  /** Distinct ids give distinct tokens of each kind. */
  lemma TokensInjective(a: nat, b: nat)
    ensures ViewToken(a) == ViewToken(b) ==> a == b
    ensures BuyToken(a) == BuyToken(b) ==> a == b
    ensures PayloadToken(a) == PayloadToken(b) ==> a == b
  {
  }

  /** The callback decoder reads the third field only: anything appended
      after a further underscore is ignored. */
  lemma CallbackIdIgnoresTail(id: nat, tail: string)
    ensures CallbackId(ViewToken(id) + "_" + tail) == Ok(id)
  {
    var d := NatToDecimal(id);
    var s3 := d + ['_'] + tail;
    var s2 := "content" + ['_'] + s3;
    var s1 := "view" + ['_'] + s2;
    assert s1 == ViewToken(id) + "_" + tail;
    SplitAfterField("view", s2, '_');
    SplitAfterField("content", s3, '_');
    SplitAfterField(d, tail, '_');
    assert Split(s1, '_')[2] == d;
    ParseIntOfDecimal(id);
  }

  /** A view button with no further underscore decodes to exactly what
      `int()` makes of the text after the prefix. */
  lemma ViewDataDecodesTail(rest: string)
    requires '_' !in rest
    ensures StartsWith(ViewPrefix + rest, ViewPrefix)
    ensures ParseInt(rest).Some? ==> CallbackId(ViewPrefix + rest) == Ok(ParseInt(rest).value)
    ensures ParseInt(rest).None? ==> CallbackId(ViewPrefix + rest) == Err(NotAnInteger)
  {
    SplitWithoutSeparator(rest, '_');
    SplitBehindPrefix("view", "content", rest);
    assert ViewPrefix + rest == "view" + "_" + "content" + "_" + rest;
  }

  /** The decoder accepts more than the canonical tokens: `int()` allows a
      leading zero, so `view_content_05` names content 5 like `ViewToken(5)`. */
  lemma LeadingZeroDecodes()
    ensures CallbackId("view_content_05") == Ok(5)
  {
    assert ParseInt("05") == Some(5) by {
      assert AllDigits("05");
      assert DigitsValue("05") == 5 by {
        assert "05"[..1] == "0";
      }
    }
    assert '_' !in "05";
    ViewDataDecodesTail("05");
    assert ViewPrefix + "05" == "view_content_05";
  }

  /** `int()` accepts a sign: `view_content_+5` names content 5. */
  lemma SignDecodes()
    ensures CallbackId("view_content_+5") == Ok(5)
  {
    assert ParseInt("+5") == Some(5) by {
      assert StripRight(StripLeft("+5")) == "+5";
      assert "+5"[1..] == "5";
    }
    assert '_' !in "+5";
    ViewDataDecodesTail("+5");
    assert ViewPrefix + "+5" == "view_content_+5";
  }

  /** `int()` skips surrounding white space: `view_content_ 5` names content 5. */
  lemma SpaceDecodes()
    ensures CallbackId("view_content_ 5") == Ok(5)
  {
    assert ParseInt(" 5") == Some(5) by {
      assert StripLeft(" 5") == "5" by {
        assert " 5"[1..] == "5";
      }
    }
    assert '_' !in " 5";
    ViewDataDecodesTail(" 5");
    assert ViewPrefix + " 5" == "view_content_ 5";
  }
}
