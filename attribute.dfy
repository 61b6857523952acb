/**
 * A single Graphviz attribute, `key=value`, and the escaping rules that turn
 * its value into DOT text (src/phpDocumentor/GraphViz/Attribute.php).
 *
 * A value holding a backslash is treated as a Graphviz escString: quotes and
 * NUL get a backslash, and a backslash gets one too unless it opens one of
 * the escString sequences `\\ \N \G \E \T \H \L \n \l \r`. Any other value is
 * quoted with `addslashes`, except a value starting with `<`, an HTML-like
 * label, which is written bare.
 */
module DotAttribute {
  import opened PhpStrings

  /** A key/value pair as the attribute stores hand it out. */
  datatype Attr = Attr(key: string, value: string)

  /** The letters that may follow a backslash in a Graphviz escString. */
  predicate IsEscStringLetter(c: char) {
    c == '\\' || c == 'N' || c == 'G' || c == 'E' || c == 'T' ||
    c == 'H' || c == 'L' || c == 'n' || c == 'l' || c == 'r'
  }

  /** A quote, an apostrophe or NUL: always preceded by a backslash. */
  predicate IsQuoteLike(c: char) {
    c == '\'' || c == '"' || c == '\0'
  }

  /**
   * `encodeSpecials` as the regex at Attribute.php:133 runs it: the match
   * test is made at every position, so the second backslash of a `\\`
   * pair is examined again on its own.
   */
  function EncodeSpecialsAsWritten(v: string): (r: string)
    ensures |r| >= |v|
  {
    if v == [] then []
    else
      var escape := IsQuoteLike(v[0]) || (v[0] == '\\' && !(|v| >= 2 && IsEscStringLetter(v[1])));
      (if escape then ['\\', v[0]] else [v[0]]) + EncodeSpecialsAsWritten(v[1..])
  }

  /**
   * `encodeSpecials` as its documentation intends it: an escString sequence
   * is kept whole (both characters), a lone backslash, a quote, an apostrophe
   * and NUL each get a backslash, and every other character is copied.
   */
  function EncodeSpecials(v: string): (r: string)
    ensures |r| >= |v|
    decreases |v|
  {
    if v == [] then []
    else if v[0] == '\\' && |v| >= 2 && IsEscStringLetter(v[1]) then v[..2] + EncodeSpecials(v[2..])
    else if v[0] == '\\' || IsQuoteLike(v[0]) then ['\\', v[0]] + EncodeSpecials(v[1..])
    else [v[0]] + EncodeSpecials(v[1..])
  }

  /** The text without its backslashes. */
  function DropBackslashes(s: string): (r: string)
    ensures '\\' !in r
  {
    if s == [] then [] else (if s[0] == '\\' then [] else [s[0]]) + DropBackslashes(s[1..])
  }

  lemma {:induction false} DropBackslashesAppend(a: string, b: string)
    ensures DropBackslashes(a + b) == DropBackslashes(a) + DropBackslashes(b)
  {
    if a == [] {
      assert a + b == b;
    } else {
      var head := if a[0] == '\\' then [] else [a[0]];
      assert (a + b)[0] == a[0] && (a + b)[1..] == a[1..] + b;
      DropBackslashesAppend(a[1..], b);
      assert DropBackslashes(a + b) == head + DropBackslashes(a[1..] + b);
    }
  }

  /** The escString encoder only inserts backslashes: every other character survives in order. */
  lemma {:induction false} EncodeSpecialsOnlyAddsBackslashes(v: string)
    ensures DropBackslashes(EncodeSpecials(v)) == DropBackslashes(v)
    decreases |v|
  {
    if v != [] {
      if v[0] == '\\' && |v| >= 2 && IsEscStringLetter(v[1]) {
        var t := EncodeSpecials(v[2..]);
        assert DropBackslashes(EncodeSpecials(v)) == DropBackslashes(v[..2]) + DropBackslashes(t) by {
          DropBackslashesAppend(v[..2], t);
        }
        assert DropBackslashes(v) == DropBackslashes(v[..2]) + DropBackslashes(v[2..]) by {
          assert v[..2] + v[2..] == v;
          DropBackslashesAppend(v[..2], v[2..]);
        }
        EncodeSpecialsOnlyAddsBackslashes(v[2..]);
      } else {
        var t := EncodeSpecials(v[1..]);
        var head := if v[0] == '\\' || IsQuoteLike(v[0]) then ['\\', v[0]] else [v[0]];
        assert DropBackslashes(EncodeSpecials(v)) == DropBackslashes(head) + DropBackslashes(t) by {
          assert EncodeSpecials(v) == head + t;
          DropBackslashesAppend(head, t);
        }
        assert DropBackslashes(head) == DropBackslashes([v[0]]);
        assert DropBackslashes(v) == DropBackslashes([v[0]]) + DropBackslashes(v[1..]) by {
          assert [v[0]] + v[1..] == v;
          DropBackslashesAppend([v[0]], v[1..]);
        }
        EncodeSpecialsOnlyAddsBackslashes(v[1..]);
      }
    }
  }


  /** The escString encoder's output can always be closed by a double quote. */
  lemma {:induction false} EncodeSpecialsQuotable(v: string)
    ensures QuotedBodyOk(EncodeSpecials(v))
    decreases |v|
  {
    if v != [] {
      var r := EncodeSpecials(v);
      if v[0] == '\\' && |v| >= 2 && IsEscStringLetter(v[1]) {
        EncodeSpecialsQuotable(v[2..]);
        assert r[2..] == EncodeSpecials(v[2..]);
      } else if v[0] == '\\' || IsQuoteLike(v[0]) {
        EncodeSpecialsQuotable(v[1..]);
        assert r[2..] == EncodeSpecials(v[1..]);
      } else {
        EncodeSpecialsQuotable(v[1..]);
        assert r[1..] == EncodeSpecials(v[1..]);
      }
    }
  }

  /**
   * The regex as written breaks quoting: the value made of two backslashes
   * (an escString for one backslash) is written as three, so the closing
   * quote is read as an escaped quote and the DOT string never ends.
   */
  lemma EncodeSpecialsAsWrittenBreaksQuoting()
    ensures EncodeSpecialsAsWritten("\\\\") == "\\\\\\"
    ensures !QuotedBodyOk(EncodeSpecialsAsWritten("\\\\"))
    ensures ReadQuoted(EncodeSpecialsAsWritten("\\\\") + "\"") == ("\\\\\\\"", [])
    ensures EncodeSpecials("\\\\") == "\\\\"
  {
    var w := EncodeSpecialsAsWritten("\\\\");
    assert EncodeSpecialsAsWritten("\\") == "\\\\";
    assert w == "\\\\\\";
    var t := w + "\"";
    assert t[2..] == "\\\"";
    assert t[..2] == "\\\\";
    var u: string := "\\\"";
    assert |u| == 2 && u[0] == '\\' && u[1] == '"';
    assert u[2..] == [] && u[..2] == u;
    assert ReadQuoted(u[2..]) == ([], []);
    assert ReadQuoted(u) == (u[..2] + ReadQuoted(u[2..]).0, ReadQuoted(u[2..]).1);
    assert u[..2] + [] == u;
    assert |t| == 4 && t[0] == '\\';
    assert ReadQuoted(t) == (t[..2] + u, []);
    assert t[..2] + u == t == "\\\\\\\"";
    assert w[2..] == "\\";
    assert "\\\\"[2..] == [];
  }

  /** No backslash in `v` is followed by another backslash. */
  predicate NoBackslashPair(v: string) {
    forall i :: 0 <= i < |v| - 1 ==> !(v[i] == '\\' && v[i + 1] == '\\')
  }

  lemma NoBackslashPairSuffix(v: string, k: nat)
    requires NoBackslashPair(v) && k <= |v|
    ensures NoBackslashPair(v[k..])
  {
    var t := v[k..];
    assert forall i :: 0 <= i < |t| ==> t[i] == v[i + k];
  }

  /** As written, an escString pair other than `\\\\` is copied as it stands. */
  lemma AsWrittenKeepsEscPair(v: string)
    requires |v| >= 2 && v[0] == '\\' && IsEscStringLetter(v[1]) && v[1] != '\\'
    ensures EncodeSpecialsAsWritten(v) == v[..2] + EncodeSpecialsAsWritten(v[2..])
  {
    AsWrittenCopiesLetter(v[1..]);
    assert v[1..][1..] == v[2..];
    assert [v[0]] + ([v[1]] + EncodeSpecialsAsWritten(v[2..])) == v[..2] + EncodeSpecialsAsWritten(v[2..]);
  }

  lemma AsWrittenCopiesLetter(w: string)
    requires |w| >= 1 && IsEscStringLetter(w[0]) && w[0] != '\\'
    ensures EncodeSpecialsAsWritten(w) == [w[0]] + EncodeSpecialsAsWritten(w[1..])
  {
  }

  /** The two encoders agree on every value in which no backslash follows a backslash. */
  lemma {:induction false} EncodeSpecialsAgreesAwayFromPairs(v: string)
    requires NoBackslashPair(v)
    ensures EncodeSpecials(v) == EncodeSpecialsAsWritten(v)
    decreases |v|
  {
    if v != [] {
      if v[0] == '\\' && |v| >= 2 && IsEscStringLetter(v[1]) {
        assert !(v[0] == '\\' && v[1] == '\\');
        AsWrittenKeepsEscPair(v);
        NoBackslashPairSuffix(v, 2);
        EncodeSpecialsAgreesAwayFromPairs(v[2..]);
      } else {
        NoBackslashPairSuffix(v, 1);
        EncodeSpecialsAgreesAwayFromPairs(v[1..]);
      }
    }
  }

  /**
   * Where no backslash opens an escString sequence and there is no NUL, both
   * the regex as written and the escString encoder are `addslashes`: each
   * backslash and quote gets one backslash, so a value such as `C:\temp` is
   * written as `addslashes` would.
   */
  lemma {:induction false} EncodeSpecialsIsAddSlashesOnLoneBackslashes(v: string)
    requires '\0' !in v
    requires forall i :: 0 <= i < |v| && v[i] == '\\' ==> i + 1 == |v| || !IsEscStringLetter(v[i + 1])
    ensures EncodeSpecials(v) == AddSlashes(v)
    ensures EncodeSpecialsAsWritten(v) == AddSlashes(v)
    decreases |v|
  {
    if v != [] {
      var tail := v[1..];
      assert v[0] in v;
      assert forall i :: 0 <= i < |tail| ==> tail[i] == v[i + 1];
      assert '\0' !in tail by {
        assert forall c :: c in tail ==> c in v;
      }
      EncodeSpecialsIsAddSlashesOnLoneBackslashes(tail);
    }
    assert NoBackslashPair(v) by {
      forall i | 0 <= i < |v| - 1
        ensures !(v[i] == '\\' && v[i + 1] == '\\')
      {
        assert v[i] == '\\' ==> !IsEscStringLetter(v[i + 1]);
      }
    }
    EncodeSpecialsAgreesAwayFromPairs(v);
  }

  /**
   * The value is a well-formed escString body with nothing to escape: plain
   * characters (no backslash, quote, apostrophe or NUL) and escString
   * sequences, a backslash followed by one of the escString letters.
   */
  predicate IsEscStringText(v: string)
    decreases |v|
  {
    if v == [] then true
    else if v[0] == '\\' then |v| >= 2 && IsEscStringLetter(v[1]) && IsEscStringText(v[2..])
    else !IsQuoteLike(v[0]) && IsEscStringText(v[1..])
  }

  /**
   * The escString encoder leaves a value unchanged exactly when it is escString
   * text, e.g. `a\la` or `a\\lb`; any lone backslash or quote makes it longer.
   */
  lemma {:induction false} EncodeSpecialsKeepsEscStrings(v: string)
    ensures EncodeSpecials(v) == v <==> IsEscStringText(v)
    ensures !IsEscStringText(v) ==> |EncodeSpecials(v)| > |v|
    decreases |v|
  {
    if v != [] {
      var r := EncodeSpecials(v);
      if v[0] == '\\' && |v| >= 2 && IsEscStringLetter(v[1]) {
        EncodeSpecialsKeepsEscStrings(v[2..]);
        assert v[..2] + v[2..] == v;
        assert r == v ==> r[2..] == v[2..];
      } else if v[0] == '\\' || IsQuoteLike(v[0]) {
        assert |r| > |v|;
      } else {
        EncodeSpecialsKeepsEscStrings(v[1..]);
        assert [v[0]] + v[1..] == v;
        assert r == v ==> r[1..] == v[1..];
      }
    }
  }

  /** The key as written: `url` (exactly) becomes `URL`, every other key is kept. */
  function RenderKey(key: string): (r: string)
    ensures r != key ==> key == "url" && r == "URL"
    ensures key == "url" ==> r == "URL"
  {
    if key == "url" then "URL" else key
  }

  /** `isValueContainingSpecials`: the value holds a backslash. */
  predicate IsValueContainingSpecials(value: string) {
    '\\' in value
  }

  /** `isValueInHtml`: the value is non-empty and starts with `<`. */
  predicate IsValueInHtml(value: string) {
    |value| > 0 && value[0] == '<'
  }

  /**
   * The value as written. The backslash test comes first, so a value with a
   * backslash is quoted even when it starts with `<`.
   */
  function RenderValue(value: string): (r: string)
    ensures IsValueInHtml(value) && !IsValueContainingSpecials(value) ==> r == value
    ensures !(IsValueInHtml(value) && !IsValueContainingSpecials(value)) ==> |r| >= 2 && r[0] == '"' && r[|r| - 1] == '"'
  {
    if IsValueContainingSpecials(value) then "\"" + EncodeSpecials(value) + "\""
    else if !IsValueInHtml(value) then "\"" + AddSlashes(value) + "\""
    else value
  }

  /**
   * The value as the code writes it, with the regex as written. It differs
   * from `RenderValue` only on values with a backslash pair.
   */
  function RenderValueAsWritten(value: string): (r: string)
    ensures !IsValueContainingSpecials(value) ==> r == RenderValue(value)
  {
    if IsValueContainingSpecials(value) then "\"" + EncodeSpecialsAsWritten(value) + "\""
    else if !IsValueInHtml(value) then "\"" + AddSlashes(value) + "\""
    else value
  }

  /** Without a backslash pair in the value, the code's rendering and the corrected one agree. */
  lemma RenderValueAgreesAwayFromPairs(value: string)
    requires NoBackslashPair(value)
    ensures RenderValueAsWritten(value) == RenderValue(value)
  {
    EncodeSpecialsAgreesAwayFromPairs(value);
  }

  /**
   * As written, the value `\\"` (two backslashes and a quote) is written
   * with four backslashes and a bare quote: a DOT reader closes the string
   * at that quote and the real closing quote is left over. The corrected
   * rendering keeps the pair and escapes the quote.
   */
  lemma RenderValueAsWrittenClosesEarly()
    ensures RenderValueAsWritten("\\\\\"") == "\"\\\\\\\\\"\""
    ensures ReadQuoted(RenderValueAsWritten("\\\\\"")[1..]) == ("\\\\\\\\", "\"")
    ensures RenderValue("\\\\\"") == "\"\\\\\\\"\""
  {
    PairQuoteEncodedAsWritten();
    PairQuoteEncoded();
    assert "\\\\\""[0] == '\\';
    var t: string := "\\\\\\\\\"\"";
    assert RenderValueAsWritten("\\\\\"")[1..] == t;
    FourBackslashesThenQuotes();
  }

  lemma PairQuoteEncodedAsWritten()
    ensures EncodeSpecialsAsWritten("\\\\\"") == "\\\\\\\\\""
  {
    var v: string := "\\\\\"";
    assert v[1..] == "\\\"" && v[2..] == "\"";
    assert EncodeSpecialsAsWritten(v[2..]) == "\\\"";
    assert EncodeSpecialsAsWritten(v[1..]) == "\\\\\\\"";
  }

  lemma PairQuoteEncoded()
    ensures EncodeSpecials("\\\\\"") == "\\\\\\\""
  {
    var v: string := "\\\\\"";
    assert v[..2] == "\\\\" && v[2..] == "\"";
    assert EncodeSpecials(v[2..]) == "\\\"";
  }

  /** A reader takes two backslash pairs and stops at the first quote. */
  lemma FourBackslashesThenQuotes()
    ensures ReadQuoted("\\\\\\\\\"\"") == ("\\\\\\\\", "\"")
  {
    var t: string := "\\\\\\\\\"\"";
    var u := t[2..];
    assert |t| == 6 && t[0] == '\\' && |u| == 4 && u[0] == '\\';
    assert u[2..] == "\"\"" && u[2..][1..] == "\"";
    assert ReadQuoted(u[2..]) == ([], "\"");
    assert ReadQuoted(u) == (u[..2] + [], "\"");
    assert u[..2] + [] == u[..2];
    assert t[..2] + u[..2] == "\\\\\\\\";
  }

  /** `__toString`: rendered key, `=`, rendered value. */
  function AttributeText(key: string, value: string): string {
    RenderKey(key) + "=" + RenderValue(value)
  }

  /**
   * Every value the corrected rendering writes is one DOT token: an
   * HTML-like label written as given, or a double-quoted string that a DOT
   * reader closes exactly at the last character.
   */
  lemma RenderedValueIsOneToken(value: string)
    ensures var r := RenderValue(value);
      if IsValueInHtml(value) && !IsValueContainingSpecials(value) then r == value
      else |r| >= 2 && r[0] == '"' && ReadQuoted(r[1..]) == (r[1..|r| - 1], [])
  {
    var r := RenderValue(value);
    if IsValueContainingSpecials(value) {
      EncodeSpecialsQuotable(value);
      ReadQuotedBody(EncodeSpecials(value), []);
      assert r[1..] == EncodeSpecials(value) + "\"" + [];
    } else if !IsValueInHtml(value) {
      AddSlashesQuotable(value);
      ReadQuotedBody(AddSlashes(value), []);
      assert r[1..] == AddSlashes(value) + "\"" + [];
    }
  }

  /** The text before the first `=`, and the text after it. */
  function SplitAtEquals(t: string): (r: (string, string))
    ensures |r.0| <= |t|
  {
    if t == [] then ([], [])
    else if t[0] == '=' then ([], t[1..])
    else var rest := SplitAtEquals(t[1..]); ([t[0]] + rest.0, rest.1)
  }

  lemma {:induction false} SplitAtEqualsFirst(a: string, b: string)
    requires '=' !in a
    ensures SplitAtEquals(a + "=" + b) == (a, b)
  {
    var t := a + "=" + b;
    if a == [] {
      assert t[1..] == b;
    } else {
      assert t[1..] == a[1..] + "=" + b;
      assert forall c :: c in a[1..] ==> c in a;
      SplitAtEqualsFirst(a[1..], b);
      assert [a[0]] + a[1..] == a;
    }
  }

  /**
   * Reads an attribute line back: the key is the text up to the first `=`;
   * a quoted value is unquoted and `stripslashes`d, a bare value is kept.
   */
  function ReadAttribute(t: string): (r: Attr)
  {
    var (k, rest) := SplitAtEquals(t);
    if |rest| > 0 && rest[0] == '"' then Attr(k, StripSlashes(ReadQuoted(rest[1..]).0))
    else Attr(k, rest)
  }

  /**
   * For a key without `=` and a value without a backslash, the line reads
   * back as the rendered key and exactly the value that was set.
   */
  lemma AttributeRoundTrip(key: string, value: string)
    requires '=' !in key && !IsValueContainingSpecials(value)
    ensures ReadAttribute(AttributeText(key, value)) == Attr(RenderKey(key), value)
  {
    SplitAtEqualsFirst(RenderKey(key), RenderValue(value));
    if !IsValueInHtml(value) {
      AddSlashesQuotable(value);
      ReadQuotedBody(AddSlashes(value), []);
      assert RenderValue(value)[1..] == AddSlashes(value) + "\"" + [];
      StripAddSlashes(value);
    }
  }

  /** Plain values are quoted and `addslashes`-escaped. */
  lemma AttributeTextPlainExamples()
    ensures AttributeText("a", "b") == "a=\"b\""
    ensures AttributeText("a", "a\"a") == "a=\"a\\\"a\""
  {
    assert AddSlashes("b") == "b";
    assert AddSlashes("a") == "a";
    assert AddSlashes("\"a") == "\\\"a";
    assert AddSlashes("a\"a") == "a\\\"a";
  }

  /** The key `url` is written `URL`. */
  lemma UrlKeyExample()
    ensures AttributeText("url", "a\"a") == "URL=\"a\\\"a\""
  {
    QuotedValueExample();
    assert RenderKey("url") == "URL";
  }

  lemma QuotedValueExample()
    ensures RenderValue("a\"a") == "\"a\\\"a\""
  {
    assert AddSlashes("a") == "a";
    assert AddSlashes("\"a") == "\\\"a";
    assert AddSlashes("a\"a") == "a\\\"a";
    assert !IsValueContainingSpecials("a\"a");
  }

  /** An HTML-like value is written bare. */
  lemma HtmlValueExample()
    ensures AttributeText("url", "<a>test</a>") == "URL=<a>test</a>"
  {
    var v := "<a>test</a>";
    assert forall i :: 0 <= i < |v| ==> v[i] != '\\';
    assert RenderValue(v) == v;
  }

  /** An ordinary character is copied. */
  lemma EncodeCopies(c: char, rest: string)
    requires c != '\\' && !IsQuoteLike(c)
    ensures EncodeSpecials([c] + rest) == [c] + EncodeSpecials(rest)
  {
    assert ([c] + rest)[1..] == rest;
  }

  /** A quote, an apostrophe or NUL gets a backslash. */
  lemma EncodeEscapes(c: char, rest: string)
    requires IsQuoteLike(c)
    ensures EncodeSpecials([c] + rest) == ['\\', c] + EncodeSpecials(rest)
  {
    assert ([c] + rest)[1..] == rest;
  }

  /** An escString sequence, `\\\\` included, is copied whole. */
  lemma EncodeKeepsPair(c: char, rest: string)
    requires IsEscStringLetter(c)
    ensures EncodeSpecials(['\\', c] + rest) == ['\\', c] + EncodeSpecials(rest)
  {
    var v := ['\\', c] + rest;
    assert v[..2] == ['\\', c] && v[2..] == rest;
  }

  /** An escString sequence is kept: `a\la`. */
  lemma EscStringKeptExample()
    ensures AttributeText("a", "a\\la") == "a=\"a\\la\""
  {
    EscStringKeptEncoded();
    assert "a\\la"[1] == '\\';
  }

  lemma EscStringKeptEncoded()
    ensures EncodeSpecials("a\\la") == "a\\la"
  {
  }

  /** Beside an escString sequence a quote is still escaped: `a\l"a`. */
  lemma EscStringQuoteExample()
    ensures AttributeText("a", "a\\l\"a") == "a=\"a\\l\\\"a\""
  {
    EscStringQuoteEncoded();
    assert "a\\l\"a"[1] == '\\';
  }

  lemma EscStringQuoteEncoded()
    ensures EncodeSpecials("a\\l\"a") == "a\\l\\\"a"
  {
  }

  /** Double backslashes stay as they are: `a\\\\l"a`. */
  lemma DoubleBackslashExample()
    ensures AttributeText("a", "a\\\\l\"a") == "a=\"a\\\\l\\\"a\""
  {
    DoubleBackslashRendered();
  }

  lemma DoubleBackslashRendered()
    ensures RenderValue("a\\\\l\"a") == "\"a\\\\l\\\"a\""
  {
    DoubleBackslashEncoded();
    assert "a\\\\l\"a"[1] == '\\';
  }

  lemma DoubleBackslashEncoded()
    ensures EncodeSpecials("a\\\\l\"a") == "a\\\\l\\\"a"
  {
  }

  /** The attribute object of Attribute.php, whose key and value can be reassigned. */
  class Attribute {
    var key: string
    var value: string

    constructor (key: string, value: string)
      ensures this.key == key && this.value == value
    {
      this.key := key;
      this.value := value;
    }

    /** `setKey`: replaces the key only and returns the same attribute. */
    method SetKey(key: string) returns (self: Attribute)
      modifies this`key
      ensures self == this && this.key == key && value == old(value)
    {
      this.key := key;
      self := this;
    }

    /** `setValue`: replaces the value only and returns the same attribute. */
    method SetValue(value: string) returns (self: Attribute)
      modifies this`value
      ensures self == this && this.value == value && key == old(key)
    {
      this.value := value;
      self := this;
    }

    /** `__toString`; a line without a backslash in the value reads back as key and value. */
    function ToDot(): (r: string)
      reads this
      ensures '=' !in key && !IsValueContainingSpecials(value) ==> ReadAttribute(r) == Attr(RenderKey(key), value)
    {
      assert '=' !in key && !IsValueContainingSpecials(value) ==> ReadAttribute(AttributeText(key, value)) == Attr(RenderKey(key), value) by {
        if '=' !in key && !IsValueContainingSpecials(value) {
          AttributeRoundTrip(key, value);
        }
      }
      AttributeText(key, value)
    }
  }
}
