/** Label clean-up and the text the adapter embeds in its Cypher queries:
    `str.strip('"')`, the quote escaping of `get_knowledge_graph`, the
    Cypher string-literal reader that consumes it, label matching with
    `CONTAINS`, and the database-name substitution. */
module Labels {
  import opened Types

  const DoubleQuote: char := '"'
  const SingleQuote: char := '\''
  const Backslash: char := '\\'

  // ---------------------------------------------------------------------------
  // str.strip('"')
  // ---------------------------------------------------------------------------

  /** `s.lstrip('"')`: drops every leading double quote. */
  function StripLeading(s: string): (r: string)
    ensures |r| <= |s| && r == s[|s| - |r|..]
    ensures |r| > 0 ==> r[0] != DoubleQuote
    ensures forall i :: 0 <= i < |s| - |r| ==> s[i] == DoubleQuote
  {
    if |s| > 0 && s[0] == DoubleQuote then StripLeading(s[1..]) else s
  }

  /** `s.rstrip('"')`: drops every trailing double quote. */
  function StripTrailing(s: string): (r: string)
    ensures |r| <= |s| && r == s[..|r|]
    ensures |r| > 0 ==> r[|r| - 1] != DoubleQuote
    ensures forall i :: |r| <= i < |s| ==> s[i] == DoubleQuote
  {
    if |s| > 0 && s[|s| - 1] == DoubleQuote then StripTrailing(s[..|s| - 1]) else s
  }

  /** `s.strip('"')`, as `_ensure_label`, `get_knowledge_graph` and the
      edge queries apply it: the result is a slice of `s` that neither
      starts nor ends with a double quote, and only double quotes were cut
      off around it. */
  function StripQuotes(s: string): (r: string)
    ensures |r| > 0 ==> r[0] != DoubleQuote && r[|r| - 1] != DoubleQuote
    ensures exists i :: QuotesAround(s, r, i)
  {
    var lead := StripLeading(s);
    var r := StripTrailing(lead);
    var i := |s| - |lead|;
    assert QuotesAround(s, r, i);
    r
  }

  /** `r` sits at index `i` of `s` and everything around it is double quotes. */
  predicate QuotesAround(s: string, r: string, i: int)
  {
    && 0 <= i <= |s| - |r| && r == s[i..i + |r|]
    && (forall k :: 0 <= k < i ==> s[k] == DoubleQuote)
    && (forall k :: i + |r| <= k < |s| ==> s[k] == DoubleQuote)
  }

  /** A label that neither starts nor ends with `"` is left as it is. */
  lemma StripQuotesUnquoted(s: string)
    requires s != [] ==> s[0] != DoubleQuote && s[|s| - 1] != DoubleQuote
    ensures StripQuotes(s) == s
  {
    var r := StripQuotes(s);
    var i :| QuotesAround(s, r, i);
    if s != [] {
      var first, last := s[0], s[|s| - 1];
      assert i == 0 || first == DoubleQuote;
      assert i + |r| == |s| || last == DoubleQuote;
    }
    assert s[0..|s|] == s;
  }

  /** Stripping twice is stripping once. */
  lemma StripQuotesIdempotent(s: string)
    ensures StripQuotes(StripQuotes(s)) == StripQuotes(s)
  {
    var r := StripQuotes(s);
    assert StripLeading(r) == r;
    assert StripTrailing(r) == r;
  }

  // ---------------------------------------------------------------------------
  // The escaping of get_knowledge_graph, as written
  // ---------------------------------------------------------------------------

  /** `label.replace("'", "\\'")`: a backslash is put before every single
      quote; nothing else changes (backslashes already there are kept as
      they are). */
  function EscapeQuotes(s: string): (r: string)
    ensures |r| == |s| + Occurrences(s, SingleQuote)
  {
    if s == [] then []
    else (if s[0] == SingleQuote then [Backslash, SingleQuote] else [s[0]]) + EscapeQuotes(s[1..])
  }

  /** Deletes the backslash in front of every single quote. */
  function DropQuoteBackslashes(t: string): string
  {
    if |t| >= 2 && t[0] == Backslash && t[1] == SingleQuote then [SingleQuote] + DropQuoteBackslashes(t[2..])
    else if t == [] then []
    else [t[0]] + DropQuoteBackslashes(t[1..])
  }

  lemma {:induction false} EscapeQuotesHead(s: string)
    requires s != []
    ensures EscapeQuotes(s)[0] == (if s[0] == SingleQuote then Backslash else s[0])
  {
  }

  /** Deleting the backslash put before each quote gives the label back,
      whatever backslashes the label held already. */
  lemma {:induction false} DropQuoteBackslashesOfEscape(s: string)
    ensures DropQuoteBackslashes(EscapeQuotes(s)) == s
  {
    if s != [] {
      var rest := EscapeQuotes(s[1..]);
      DropQuoteBackslashesOfEscape(s[1..]);
      if s[0] == SingleQuote {
        assert EscapeQuotes(s) == [Backslash, SingleQuote] + rest;
        assert (EscapeQuotes(s))[2..] == rest;
      } else {
        assert EscapeQuotes(s) == [s[0]] + rest;
        if s[0] == Backslash && rest != [] {
          EscapeQuotesHead(s[1..]);
          assert rest[0] != SingleQuote;
        }
        assert (EscapeQuotes(s))[1..] == rest;
      }
    }
  }

  /** Backslashes are not escaped: the escaped label holds the label's own
      backslashes plus exactly one per single quote. */
  lemma {:induction false} EscapeQuotesBackslashes(s: string)
    ensures Occurrences(EscapeQuotes(s), Backslash) == Occurrences(s, Backslash) + Occurrences(s, SingleQuote)
    ensures Occurrences(EscapeQuotes(s), SingleQuote) == Occurrences(s, SingleQuote)
  {
    if s != [] {
      EscapeQuotesBackslashes(s[1..]);
      var head := if s[0] == SingleQuote then [Backslash, SingleQuote] else [s[0]];
      OccurrencesAppend(head, EscapeQuotes(s[1..]), Backslash);
      OccurrencesAppend(head, EscapeQuotes(s[1..]), SingleQuote);
    }
  }

  lemma {:induction false} OccurrencesAppend(a: string, b: string, c: char)
    ensures Occurrences(a + b, c) == Occurrences(a, c) + Occurrences(b, c)
  {
    if a == [] {
      assert a + b == b;
    } else {
      assert (a + b)[1..] == a[1..] + b;
      OccurrencesAppend(a[1..], b, c);
    }
  }

  // ---------------------------------------------------------------------------
  // How the store reads a single-quoted Cypher string literal
  // ---------------------------------------------------------------------------

  /** The character a Cypher escape `\c` stands for, for the one-character
      escapes: `\\`, `\'`, `\"`, `\t`, `\b`, `\n`, `\r` and `\f`. */
  function EscapedChar(c: char): Option<char>
  {
    if c == Backslash || c == SingleQuote || c == DoubleQuote then Some(c)
    else if c == 't' then Some('\t')
    else if c == 'b' then Some('\U{0008}')
    else if c == 'n' then Some('\n')
    else if c == 'r' then Some('\r')
    else if c == 'f' then Some('\U{000C}')
    else None
  }

  /** Reads the body of a single-quoted Cypher string literal whose opening
      quote has already been consumed: returns the literal's value and the
      query text after the closing quote, or None when the text is not a
      well-formed literal. The one-character escapes of `EscapedChar` are
      modelled; `\u`/`\U` escapes and any other escape sequence are treated
      as unreadable. */
  function ReadLiteral(s: string): Option<(string, string)>
    decreases |s|
  {
    if s == [] then None
    else if s[0] == SingleQuote then Some(([], s[1..]))
    else if s[0] == Backslash then
      if |s| >= 2 && EscapedChar(s[1]).Some?
      then Prepend(EscapedChar(s[1]).value, ReadLiteral(s[2..]))
      else None
    else Prepend(s[0], ReadLiteral(s[1..]))
  }

  function Prepend(c: char, r: Option<(string, string)>): Option<(string, string)>
  {
    match r
    case None => None
    case Some((v, rest)) => Some(([c] + v, rest))
  }

  /** The literal is a prefix of the text: what follows its closing quote
      is a strictly shorter suffix of the input. */
  lemma {:induction false} ReadLiteralSuffix(s: string)
    decreases |s|
    ensures ReadLiteral(s).Some? ==>
              var rest := ReadLiteral(s).value.1;
              |rest| < |s| && rest == s[|s| - |rest|..]
  {
    if s != [] && s[0] != SingleQuote {
      if s[0] == Backslash {
        if |s| >= 2 && EscapedChar(s[1]).Some? {
          ReadLiteralSuffix(s[2..]);
        }
      } else {
        ReadLiteralSuffix(s[1..]);
      }
    }
  }

  /** The string the store matches against when `'{escaped}'` is embedded in
      a query: the literal must end exactly where the embedded text ends,
      otherwise the query text is no longer the one the adapter wrote. */
  function QueryNeedle(escaped: string): Option<string>
  {
    match ReadLiteral(escaped + [SingleQuote])
    case Some((v, rest)) => if rest == [] then Some(v) else None
    case None => None
  }

  /** The as-written escaping lets the literal close early: for the label
      `\'` the store reads the value `\` and the quote that follows becomes
      query text. */
  lemma EscapeQuotesClosesLiteralEarly()
    ensures ReadLiteral(EscapeQuotes([Backslash, SingleQuote]) + [SingleQuote]) == Some(([Backslash], [SingleQuote]))
    ensures QueryNeedle(EscapeQuotes([Backslash, SingleQuote])) == None
  {
    var text := [Backslash, Backslash, SingleQuote, SingleQuote];
    assert EscapeQuotes([SingleQuote]) == [Backslash, SingleQuote] + EscapeQuotes([]);
    assert EscapeQuotes([Backslash, SingleQuote]) == [Backslash] + EscapeQuotes([SingleQuote]);
    assert EscapeQuotes([Backslash, SingleQuote]) + [SingleQuote] == text;
    assert text[2..] == [SingleQuote, SingleQuote];
    assert ReadLiteral(text[2..]) == Some(([], [SingleQuote]));
    assert ReadLiteral(text) == Prepend(Backslash, ReadLiteral(text[2..]));
    assert [Backslash] + [] == [Backslash];
  }

  // ---------------------------------------------------------------------------
  // The escaping the comment "prevent injection attacks" calls for
  // ---------------------------------------------------------------------------

  /** Escapes backslashes as well as single quotes, so that the literal
      always closes exactly where the embedded text ends. */
  function EscapeLiteral(s: string): (r: string)
    ensures |r| == |s| + Occurrences(s, SingleQuote) + Occurrences(s, Backslash)
  {
    if s == [] then []
    else (if s[0] == SingleQuote || s[0] == Backslash then [Backslash, s[0]] else [s[0]]) + EscapeLiteral(s[1..])
  }

  /** Reading one escaped quote or backslash. */
  lemma ReadEscapedStep(c: char, tail: string)
    requires c == SingleQuote || c == Backslash
    ensures ReadLiteral([Backslash, c] + tail) == Prepend(c, ReadLiteral(tail))
  {
    assert ([Backslash, c] + tail)[2..] == tail;
  }

  /** Reading one plain character. */
  lemma ReadPlainStep(c: char, tail: string)
    requires c != SingleQuote && c != Backslash
    ensures ReadLiteral([c] + tail) == Prepend(c, ReadLiteral(tail))
  {
    assert ([c] + tail)[1..] == tail;
  }

  /** The escaped text of a label is the escaped first character followed
      by the escaped rest. */
  lemma EscapeLiteralCons(s: string)
    requires s != []
    ensures EscapeLiteral(s) == (if s[0] == SingleQuote || s[0] == Backslash then [Backslash, s[0]] else [s[0]])
                                + EscapeLiteral(s[1..])
  {
  }

  /** One escaped character of the round trip: if the rest of the label
      reads back, so does the whole label. */
  lemma LiteralRoundTripEscaped(s: string, rest: string)
    requires s != [] && (s[0] == SingleQuote || s[0] == Backslash)
    requires ReadLiteral(EscapeLiteral(s[1..]) + [SingleQuote] + rest) == Some((s[1..], rest))
    ensures ReadLiteral(EscapeLiteral(s) + [SingleQuote] + rest) == Some((s, rest))
  {
    var tail := EscapeLiteral(s[1..]) + [SingleQuote] + rest;
    EscapeLiteralCons(s);
    assert EscapeLiteral(s) + [SingleQuote] + rest == [Backslash, s[0]] + tail;
    ReadEscapedStep(s[0], tail);
    assert [s[0]] + s[1..] == s;
  }

  /** One plain character of the round trip. */
  lemma LiteralRoundTripPlain(s: string, rest: string)
    requires s != [] && s[0] != SingleQuote && s[0] != Backslash
    requires ReadLiteral(EscapeLiteral(s[1..]) + [SingleQuote] + rest) == Some((s[1..], rest))
    ensures ReadLiteral(EscapeLiteral(s) + [SingleQuote] + rest) == Some((s, rest))
  {
    var tail := EscapeLiteral(s[1..]) + [SingleQuote] + rest;
    EscapeLiteralCons(s);
    assert EscapeLiteral(s) + [SingleQuote] + rest == [s[0]] + tail;
    ReadPlainStep(s[0], tail);
    assert [s[0]] + s[1..] == s;
  }

  /** The store reads back exactly the label, and the query text after the
      closing quote is untouched. */
  lemma {:induction false} LiteralRoundTrip(s: string, rest: string)
    ensures ReadLiteral(EscapeLiteral(s) + [SingleQuote] + rest) == Some((s, rest))
  {
    if s == [] {
      assert EscapeLiteral(s) + [SingleQuote] + rest == [SingleQuote] + rest;
      assert ([SingleQuote] + rest)[1..] == rest;
    } else {
      LiteralRoundTrip(s[1..], rest);
      if s[0] == SingleQuote || s[0] == Backslash {
        LiteralRoundTripEscaped(s, rest);
      } else {
        LiteralRoundTripPlain(s, rest);
      }
    }
  }

  /** With the corrected escaping the store always matches on the label
      itself. */
  lemma EscapeLiteralNeedle(s: string)
    ensures QueryNeedle(EscapeLiteral(s)) == Some(s)
  {
    LiteralRoundTrip(s, []);
    assert EscapeLiteral(s) + [SingleQuote] + [] == EscapeLiteral(s) + [SingleQuote];
  }

  /** The correction changes nothing for a label without backslashes. */
  lemma {:induction false} EscapeLiteralWithoutBackslash(s: string)
    requires Occurrences(s, Backslash) == 0
    ensures EscapeLiteral(s) == EscapeQuotes(s)
  {
    if s != [] {
      EscapeLiteralWithoutBackslash(s[1..]);
    }
  }

  /** So for a label without backslashes the escaping as written reads back
      as the label itself. */
  lemma PlainLabelNeedle(s: string)
    requires Occurrences(s, Backslash) == 0
    ensures QueryNeedle(EscapeQuotes(s)) == Some(s)
  {
    EscapeLiteralWithoutBackslash(s);
    EscapeLiteralNeedle(s);
  }

  /** With the escaping as written, a label ending in a backslash escapes
      the closing quote: the literal never closes and the query text is not
      readable. */
  lemma TrailingBackslashUnreadable()
    ensures QueryNeedle(EscapeQuotes(['a', Backslash])) == None
  {
    assert EscapeQuotes([Backslash]) == [Backslash] + EscapeQuotes([]);
    assert EscapeQuotes(['a', Backslash]) == ['a'] + EscapeQuotes([Backslash]);
    var text := ['a', Backslash, SingleQuote];
    assert EscapeQuotes(['a', Backslash]) + [SingleQuote] == text;
    assert text[1..][2..] == [];
    assert ReadLiteral(text[1..]) == Prepend(SingleQuote, ReadLiteral([])) == None;
  }

  /** With the escaping as written, `\n` in a label is read by the store as
      a newline: the needle is not the label. */
  lemma NewlineEscapeReadsNewline()
    ensures QueryNeedle(EscapeQuotes(['a', Backslash, 'n'])) == Some(['a', '\n'])
  {
    assert EscapeQuotes(['n']) == ['n'] + EscapeQuotes([]);
    assert EscapeQuotes([Backslash, 'n']) == [Backslash] + EscapeQuotes(['n']);
    assert EscapeQuotes(['a', Backslash, 'n']) == ['a'] + EscapeQuotes([Backslash, 'n']);
    var text := ['a', Backslash, 'n', SingleQuote];
    assert EscapeQuotes(['a', Backslash, 'n']) + [SingleQuote] == text;
    assert [SingleQuote][1..] == [];
    assert ReadLiteral([SingleQuote]) == Some(([], []));
    assert text[1..][2..] == [SingleQuote];
    assert ReadLiteral(text[1..]) == Prepend('\n', ReadLiteral([SingleQuote]));
    assert ['\n'] + [] == ['\n'];
    assert ReadLiteral(text) == Prepend('a', ReadLiteral(text[1..]));
    assert ['a'] + ['\n'] == ['a', '\n'];
    assert ReadLiteral(text) == Some((['a', '\n'], []));
  }

  // ---------------------------------------------------------------------------
  // Label matching
  // ---------------------------------------------------------------------------

  /** Cypher `s CONTAINS t`: `t` occurs in `s` as a contiguous substring. */
  predicate Contains(s: string, t: string)
    decreases |s|
  {
    t <= s || (|s| > 0 && Contains(s[1..], t))
  }

  lemma {:induction false} ContainsAt(s: string, t: string, i: nat)
    requires i + |t| <= |s| && s[i..i + |t|] == t
    ensures Contains(s, t)
  {
    if i > 0 {
      assert s[1..][i - 1..i - 1 + |t|] == t;
      ContainsAt(s[1..], t, i - 1);
    }
  }

  /** `any(label IN labels(n) WHERE label CONTAINS needle)`. */
  predicate AnyLabelContains(labels: seq<string>, needle: string)
  {
    exists l :: l in labels && Contains(l, needle)
  }

  // ---------------------------------------------------------------------------
  // Database name
  // ---------------------------------------------------------------------------

  /** Characters that `[^a-zA-Z0-9-]` does not match. */
  predicate IsNameChar(c: char)
  {
    ('a' <= c <= 'z') || ('A' <= c <= 'Z') || ('0' <= c <= '9') || c == '-'
  }

  /** `re.sub(r"[^a-zA-Z0-9-]", "-", namespace)`: every character outside
      the class becomes `-`, every other character stays in place. */
  function SanitizeName(s: string): (r: string)
    ensures |r| == |s|
    ensures forall i :: 0 <= i < |s| ==> r[i] == (if IsNameChar(s[i]) then s[i] else '-')
  {
    if s == [] then [] else [if IsNameChar(s[0]) then s[0] else '-'] + SanitizeName(s[1..])
  }

  /** The database name: the `NEO4J_DATABASE` environment value when set,
      otherwise the sanitised namespace. */
  function DatabaseName(envValue: Option<string>, namespace: string): (r: string)
    ensures envValue.Some? ==> r == envValue.value
    ensures envValue.None? ==> forall i :: 0 <= i < |r| ==> IsNameChar(r[i])
    ensures envValue.None? ==> |r| == |namespace|
    ensures envValue.None? ==>
              forall i :: 0 <= i < |r| ==> r[i] == (if IsNameChar(namespace[i]) then namespace[i] else '-')
  {
    match envValue
    case Some(v) => v
    case None => SanitizeName(namespace)
  }

  /** A sanitised name is its own sanitisation. */
  lemma SanitizeNameIdempotent(s: string)
    ensures SanitizeName(SanitizeName(s)) == SanitizeName(s)
  {
  }
}
