/**
 * The PHP string built-ins the DOT serialiser relies on, on strings of
 * single-byte characters: `addslashes`, its inverse `stripslashes`,
 * `lcfirst`, `strtolower`, `substr` from an offset, the case-insensitive
 * prefix test behind `strtolower(substr($s, 0, 3)) === 'set'` and
 * `mb_stripos($s, 'set') === 0`, and `implode`.
 *
 * Case mapping is ASCII only, as PHP's `strtolower`/`lcfirst` are.
 */
module PhpStrings {

  /** True iff `c` is one of the four characters `addslashes` escapes. */
  predicate IsSlashed(c: char) {
    c == '\'' || c == '"' || c == '\\' || c == '\0'
  }

  /** What `addslashes` writes for one character: NUL becomes backslash + '0'. */
  function SlashChar(c: char): (r: string)
    ensures IsSlashed(c) ==> |r| == 2 && r[0] == '\\'
    ensures !IsSlashed(c) ==> r == [c]
  {
    if c == '\0' then ['\\', '0']
    else if IsSlashed(c) then ['\\', c]
    else [c]
  }

  /** PHP's `addslashes`. */
  function AddSlashes(s: string): (r: string)
    ensures |r| >= |s|
  {
    if s == [] then [] else SlashChar(s[0]) + AddSlashes(s[1..])
  }

  /**
   * PHP's `stripslashes`: a backslash is dropped and the character after it
   * kept as is, except that backslash + '0' gives NUL; a trailing lone
   * backslash is dropped.
   */
  function StripSlashes(s: string): (r: string)
    ensures |r| <= |s|
  {
    if s == [] then []
    else if s[0] != '\\' then [s[0]] + StripSlashes(s[1..])
    else if |s| == 1 then []
    else (if s[1] == '0' then ['\0'] else [s[1]]) + StripSlashes(s[2..])
  }

  /** `stripslashes` undoes `addslashes`, so `addslashes` loses nothing. */
  lemma {:induction false} StripAddSlashes(s: string)
    ensures StripSlashes(AddSlashes(s)) == s
  {
    if s != [] {
      StripAddSlashes(s[1..]);
      var c := s[0];
      assert AddSlashes(s) == SlashChar(c) + AddSlashes(s[1..]);
      if IsSlashed(c) {
        assert (SlashChar(c) + AddSlashes(s[1..]))[2..] == AddSlashes(s[1..]);
      } else {
        assert (SlashChar(c) + AddSlashes(s[1..]))[1..] == AddSlashes(s[1..]);
      }
    }
  }

  /** Two different strings never escape to the same text. */
  lemma AddSlashesInjective(s: string, t: string)
    requires AddSlashes(s) == AddSlashes(t)
    ensures s == t
  {
    StripAddSlashes(s);
    StripAddSlashes(t);
  }

  /**
   * The output of `addslashes` can stand between double quotes: every
   * backslash in it starts a two-character pair and no double quote stands
   * outside such a pair, so the first bare `"` after it is the closing one.
   */
  predicate QuotedBodyOk(t: string)
    decreases |t|
  {
    if t == [] then true
    else if t[0] == '\\' then |t| >= 2 && QuotedBodyOk(t[2..])
    else t[0] != '"' && QuotedBodyOk(t[1..])
  }

  lemma {:induction false} AddSlashesQuotable(s: string)
    ensures QuotedBodyOk(AddSlashes(s))
  {
    if s != [] {
      AddSlashesQuotable(s[1..]);
      var c := s[0];
      var t := SlashChar(c) + AddSlashes(s[1..]);
      assert AddSlashes(s) == t;
      if IsSlashed(c) {
        assert t[2..] == AddSlashes(s[1..]);
      } else {
        assert t[1..] == AddSlashes(s[1..]);
      }
    }
  }

  /**
   * Reads a double-quoted token body from the front of `t`: returns the text
   * up to the first double quote that is not part of a backslash pair, and
   * what follows that quote.
   */
  function ReadQuoted(t: string): (r: (string, string))
    ensures |r.0| + |r.1| <= |t|
    decreases |t|
  {
    if t == [] then ([], [])
    else if t[0] == '"' then ([], t[1..])
    else if t[0] == '\\' && |t| >= 2 then
      var rest := ReadQuoted(t[2..]);
      (t[..2] + rest.0, rest.1)
    else
      var rest := ReadQuoted(t[1..]);
      ([t[0]] + rest.0, rest.1)
  }

  /** A quotable body followed by `"` is read back exactly, whatever follows. */
  lemma {:induction false} ReadQuotedBody(body: string, rest: string)
    requires QuotedBodyOk(body)
    ensures ReadQuoted(body + "\"" + rest) == (body, rest)
    decreases |body|
  {
    var t := body + "\"" + rest;
    if body == [] {
      assert t[1..] == rest;
    } else if body[0] == '\\' {
      ReadQuotedBody(body[2..], rest);
      assert t[2..] == body[2..] + "\"" + rest;
      assert t[..2] + body[2..] == body;
    } else {
      ReadQuotedBody(body[1..], rest);
      assert t[1..] == body[1..] + "\"" + rest;
      assert [t[0]] + body[1..] == body;
    }
  }

  /**
   * A string quoted with `addslashes` reads back whole: the reader stops at
   * the quote after it and `stripslashes` restores the string.
   */
  lemma ReadAddSlashed(s: string, rest: string)
    ensures ReadQuoted(AddSlashes(s) + "\"" + rest) == (AddSlashes(s), rest)
    ensures StripSlashes(AddSlashes(s)) == s
  {
    AddSlashesQuotable(s);
    ReadQuotedBody(AddSlashes(s), rest);
    StripAddSlashes(s);
  }

  /** A string between double quotes, escaped with `addslashes`. */
  function Quoted(s: string): string {
    "\"" + AddSlashes(s) + "\""
  }

  /**
   * A quoted token at the front of a text is read back whole: the reader
   * stops at its closing quote, `stripslashes` restores the string, and the
   * rest of the text is left over.
   */
  lemma ReadQuotedToken(s: string, rest: string)
    ensures (Quoted(s) + rest)[0] == '"'
    ensures ReadQuoted((Quoted(s) + rest)[1..]) == (AddSlashes(s), rest)
    ensures StripSlashes(AddSlashes(s)) == s
  {
    var u := AddSlashes(s) + "\"" + rest;
    assert Quoted(s) + rest == "\"" + u;
    assert (Quoted(s) + rest)[1..] == u;
    ReadAddSlashed(s, rest);
  }

  /** ASCII lower-casing of one character. */
  function LowerChar(c: char): (r: char)
    ensures 'A' <= c <= 'Z' ==> 'a' <= r <= 'z' && r as int - c as int == 32
    ensures !('A' <= c <= 'Z') ==> r == c
  {
    if 'A' <= c <= 'Z' then (c as int + 32) as char else c
  }

  /** PHP's `strtolower` (and `mb_strtolower` on ASCII text). */
  function Lower(s: string): (r: string)
    ensures |r| == |s|
    ensures forall i :: 0 <= i < |s| ==> r[i] == LowerChar(s[i])
  {
    if s == [] then [] else [LowerChar(s[0])] + Lower(s[1..])
  }

  /** PHP's `lcfirst`: only the first character is lower-cased. */
  function LowerFirst(s: string): (r: string)
    ensures |r| == |s|
    ensures |s| > 0 ==> r[0] == LowerChar(s[0]) && r[1..] == s[1..]
  {
    if s == [] then [] else [LowerChar(s[0])] + s[1..]
  }

  /** PHP's `substr($s, $start)` for a non-negative start: empty past the end. */
  function SubstrFrom(s: string, start: nat): (r: string)
    ensures start <= |s| ==> s == s[..start] + r
    ensures start >= |s| ==> r == []
  {
    if start <= |s| then s[start..] else []
  }

  /**
   * True iff `s` begins with `prefix`, ignoring ASCII case: both
   * `strtolower(substr($s, 0, 3)) === 'set'` and `mb_stripos($s, 'set') === 0`
   * are this test with the lower-case prefix "set".
   */
  predicate StartsWithIgnoreCase(s: string, prefix: string) {
    |s| >= |prefix| && Lower(s[..|prefix|]) == Lower(prefix)
  }

  /** PHP's `implode($sep, $parts)`. */
  function Implode(sep: string, parts: seq<string>): (r: string)
    ensures |parts| == 1 ==> r == parts[0]
    decreases |parts|
  {
    if parts == [] then []
    else if |parts| == 1 then parts[0]
    else parts[0] + sep + Implode(sep, parts[1..])
  }

  /** Joining two non-empty lists is joining each and putting `sep` between. */
  lemma {:induction false} ImplodeAppend(sep: string, a: seq<string>, b: seq<string>)
    requires a != [] && b != []
    ensures Implode(sep, a + b) == Implode(sep, a) + sep + Implode(sep, b)
    decreases |a|
  {
    if |a| == 1 {
      assert (a + b)[1..] == b;
    } else {
      ImplodeAppend(sep, a[1..], b);
      assert (a + b)[1..] == a[1..] + b;
    }
  }
}
