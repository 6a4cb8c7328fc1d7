/** config.php: the input sanitiser every page applies to posted text, and the
    session guard every protected page calls first. */
module Config {
  import opened Common
  import opened Hospital

  // ---------------------------------------------------------------- trim

  /** The characters PHP's trim() strips by default: space, tab, line feed,
      carriage return, NUL and vertical tab. */
  predicate IsTrimmed(c: char)
  {
    c == ' ' || c == '\t' || c == '\n' || c == '\r' || c == '\0' || c == '\U{0B}'
  }

  function TrimLeft(s: string): string
  {
    if s != [] && IsTrimmed(s[0]) then TrimLeft(s[1..]) else s
  }

  function TrimRight(s: string): string
  {
    if s != [] && IsTrimmed(s[|s| - 1]) then TrimRight(s[..|s| - 1]) else s
  }

  /** trim(): strip from both ends. */
  function Trim(s: string): string
  {
    TrimRight(TrimLeft(s))
  }

  /** How many characters trim() strips from the front. */
  function TrimStart(s: string): nat
  {
    if s != [] && IsTrimmed(s[0]) then 1 + TrimStart(s[1..]) else 0
  }

  lemma {:induction false} TrimLeftSpec(s: string)
    ensures TrimStart(s) <= |s| && TrimLeft(s) == s[TrimStart(s)..]
    ensures TrimLeft(s) != [] ==> !IsTrimmed(TrimLeft(s)[0])
    ensures forall i :: 0 <= i < TrimStart(s) ==> IsTrimmed(s[i])
  {
    if s != [] && IsTrimmed(s[0]) {
      TrimLeftSpec(s[1..]);
      assert s[1..][TrimStart(s[1..])..] == s[TrimStart(s)..];
      forall i | 0 <= i < TrimStart(s) ensures IsTrimmed(s[i]) {
        if i > 0 {
          assert s[i] == s[1..][i - 1];
        }
      }
    }
  }

  lemma {:induction false} TrimRightSpec(s: string)
    ensures |TrimRight(s)| <= |s| && TrimRight(s) == s[..|TrimRight(s)|]
    ensures TrimRight(s) != [] ==> !IsTrimmed(TrimRight(s)[|TrimRight(s)| - 1])
    ensures forall i :: |TrimRight(s)| <= i < |s| ==> IsTrimmed(s[i])
  {
    if s != [] && IsTrimmed(s[|s| - 1]) {
      var front := s[..|s| - 1];
      TrimRightSpec(front);
      assert front[..|TrimRight(front)|] == s[..|TrimRight(front)|];
      forall i | |TrimRight(s)| <= i < |s| ensures IsTrimmed(s[i]) {
        if i < |s| - 1 {
          assert s[i] == front[i];
        }
      }
    }
  }

  /** trim() gives the slice of `s` that neither starts nor ends with a trimmed
      character; everything cut off on either side is whitespace. */
  lemma TrimSpec(s: string)
    ensures TrimStart(s) + |Trim(s)| <= |s|
    ensures Trim(s) == s[TrimStart(s)..TrimStart(s) + |Trim(s)|]
    ensures forall i :: 0 <= i < TrimStart(s) ==> IsTrimmed(s[i])
    ensures forall i :: TrimStart(s) + |Trim(s)| <= i < |s| ==> IsTrimmed(s[i])
    ensures Trim(s) != [] ==> !IsTrimmed(Trim(s)[0]) && !IsTrimmed(Trim(s)[|Trim(s)| - 1])
  {
    var left := TrimLeft(s);
    TrimLeftSpec(s);
    TrimRightSpec(left);
    var lo, r := TrimStart(s), Trim(s);
    assert r == left[..|r|];
    assert r == s[lo..lo + |r|];
    forall i | lo + |r| <= i < |s| ensures IsTrimmed(s[i]) {
      assert s[i] == left[i - lo];
    }
  }

  // ---------------------------------------------------------------- stripslashes

  /** stripslashes(): a backslash is dropped and the character after it kept
      as it is, except that `\0` becomes a NUL character; a backslash at the
      very end is dropped. */
  function StripSlashes(s: string): (r: string)
    ensures |r| <= |s|
    decreases |s|
  {
    if s == [] then []
    else if s[0] == '\\' then
      if |s| == 1 then [] else [if s[1] == '0' then '\0' else s[1]] + StripSlashes(s[2..])
    else [s[0]] + StripSlashes(s[1..])
  }

  /** addslashes(): the escaping stripslashes() is meant to undo. */
  function AddSlashes(s: string): (r: string)
    ensures |s| <= |r| <= 2 * |s|
  {
    if s == [] then []
    else if s[0] == '\'' || s[0] == '"' || s[0] == '\\' then ['\\', s[0]] + AddSlashes(s[1..])
    else if s[0] == '\0' then ['\\', '0'] + AddSlashes(s[1..])
    else [s[0]] + AddSlashes(s[1..])
  }

  /** stripslashes() undoes addslashes(). */
  lemma {:induction false} StripSlashesOfAddSlashes(s: string)
    ensures StripSlashes(AddSlashes(s)) == s
  {
    if s != [] {
      StripSlashesOfAddSlashes(s[1..]);
      var a := AddSlashes(s);
      if s[0] == '\'' || s[0] == '"' || s[0] == '\\' || s[0] == '\0' {
        assert a[2..] == AddSlashes(s[1..]);
      } else {
        assert a[1..] == AddSlashes(s[1..]);
      }
    }
  }

  // ---------------------------------------------------------------- htmlspecialchars

  /** The replacement htmlspecialchars() writes for one character (ENT_HTML401,
      double_encode on). */
  function Escape(c: char, quotes: QuoteMode): (e: string)
    ensures IsSpecial(c, quotes) ==> e in {"&amp;", "&quot;", "&#039;", "&lt;", "&gt;"}
    ensures !IsSpecial(c, quotes) ==> e == [c]
  {
    if c == '&' then "&amp;"
    else if c == '"' then "&quot;"
    else if c == '\'' && quotes == EntQuotes then "&#039;"
    else if c == '<' then "&lt;"
    else if c == '>' then "&gt;"
    else [c]
  }

  /** The characters htmlspecialchars() replaces under the given flags. */
  predicate IsSpecial(c: char, quotes: QuoteMode)
  {
    c == '&' || c == '"' || c == '<' || c == '>' || (c == '\'' && quotes == EntQuotes)
  }

  function HtmlSpecialChars(s: string, quotes: QuoteMode): (r: string)
    ensures |r| >= |s|
    ensures forall i :: 0 <= i < |r| ==> r[i] != '<' && r[i] != '>' && r[i] != '"'
    ensures quotes == EntQuotes ==> forall i :: 0 <= i < |r| ==> r[i] != '\''
  {
    if s == [] then []
    else
      var e := Escape(s[0], quotes);
      var rest := HtmlSpecialChars(s[1..], quotes);
      assert forall i :: |e| <= i < |e + rest| ==> (e + rest)[i] == rest[i - |e|];
      e + rest
  }

  /** sanitize_input(): trim, then stripslashes, then htmlspecialchars with PHP's
      default flags. Its output holds no raw '<', '>' or '"', and no raw "'"
      when the default flags include ENT_QUOTES. */
  function SanitizeInput(data: string, quotes: QuoteMode): (r: string)
    ensures forall i :: 0 <= i < |r| ==> r[i] != '<' && r[i] != '>' && r[i] != '"'
    ensures quotes == EntQuotes ==> forall i :: 0 <= i < |r| ==> r[i] != '\''
  {
    HtmlSpecialChars(StripSlashes(Trim(data)), quotes)
  }

  // ---------------------------------------------------------------- entities

  predicate StartsWith(s: string, prefix: string)
  {
    |prefix| <= |s| && s[..|prefix|] == prefix
  }

  /** Position i of s starts one of the entities htmlspecialchars() emits. */
  predicate EntityAt(s: string, i: nat)
    requires i <= |s|
  {
    var t := s[i..];
    StartsWith(t, "&amp;") || StartsWith(t, "&quot;") || StartsWith(t, "&#039;")
    || StartsWith(t, "&lt;") || StartsWith(t, "&gt;")
  }

  /** Within one replacement, an '&' can only be the first character, and then
      the replacement is an entity. */
  lemma EscapeAmpersand(c: char, quotes: QuoteMode, i: nat)
    requires i < |Escape(c, quotes)| && Escape(c, quotes)[i] == '&'
    ensures i == 0 && EntityAt(Escape(c, quotes), 0)
  {
  }

  /** Every '&' that htmlspecialchars() outputs begins an entity it emitted. */
  lemma {:induction false} AmpersandsBeginEntities(s: string, quotes: QuoteMode)
    ensures forall i :: 0 <= i < |HtmlSpecialChars(s, quotes)| && HtmlSpecialChars(s, quotes)[i] == '&'
                        ==> EntityAt(HtmlSpecialChars(s, quotes), i)
  {
    if s != [] {
      AmpersandsBeginEntities(s[1..], quotes);
      var e := Escape(s[0], quotes);
      var rest := HtmlSpecialChars(s[1..], quotes);
      var r := HtmlSpecialChars(s, quotes);
      assert r == e + rest;
      forall i | 0 <= i < |r| && r[i] == '&'
        ensures EntityAt(r, i)
      {
        if i < |e| {
          EscapeAmpersand(s[0], quotes, i);
          assert r[0..][..|e|] == e;
        } else {
          assert r[i..] == rest[i - |e|..];
        }
      }
    }
  }

  /** Sanitised text never holds a bare '&': every one begins an entity. */
  lemma SanitizedAmpersands(data: string, quotes: QuoteMode)
    ensures forall i :: 0 <= i < |SanitizeInput(data, quotes)| && SanitizeInput(data, quotes)[i] == '&'
                        ==> EntityAt(SanitizeInput(data, quotes), i)
  {
    AmpersandsBeginEntities(StripSlashes(Trim(data)), quotes);
  }

  /** htmlspecialchars_decode() with the same flags. */
  function HtmlSpecialCharsDecode(s: string, quotes: QuoteMode): string
    decreases |s|
  {
    if s == [] then []
    else if StartsWith(s, "&amp;") then "&" + HtmlSpecialCharsDecode(s[5..], quotes)
    else if StartsWith(s, "&quot;") then "\"" + HtmlSpecialCharsDecode(s[6..], quotes)
    else if quotes == EntQuotes && StartsWith(s, "&#039;") then "'" + HtmlSpecialCharsDecode(s[6..], quotes)
    else if StartsWith(s, "&lt;") then "<" + HtmlSpecialCharsDecode(s[4..], quotes)
    else if StartsWith(s, "&gt;") then ">" + HtmlSpecialCharsDecode(s[4..], quotes)
    else [s[0]] + HtmlSpecialCharsDecode(s[1..], quotes)
  }

  /** Decoding an escaped character followed by more text gives the character
      back and decodes the rest. */
  lemma DecodeEscape(c: char, rest: string, quotes: QuoteMode)
    ensures HtmlSpecialCharsDecode(Escape(c, quotes) + rest, quotes)
            == [c] + HtmlSpecialCharsDecode(rest, quotes)
  {
    if !IsSpecial(c, quotes) {
      DecodePlain(c, rest, quotes);
    } else if c == '&' {
      DecodeAmpersand(rest, quotes);
    } else if c == '"' {
      DecodeDoubleQuote(rest, quotes);
    } else if c == '\'' {
      DecodeSingleQuote(rest, quotes);
    } else if c == '<' {
      DecodeLessThan(rest, quotes);
    } else {
      DecodeGreaterThan(rest, quotes);
    }
  }

  /** A text that differs from a prefix at some position does not start with it. */
  lemma Mismatch(t: string, prefix: string, k: nat)
    requires k < |prefix| && k < |t| && t[k] != prefix[k]
    ensures !StartsWith(t, prefix)
  {
    if |prefix| <= |t| {
      assert t[..|prefix|][k] == t[k];
    }
  }

  lemma DecodePlain(c: char, rest: string, quotes: QuoteMode)
    requires c != '&'
    ensures HtmlSpecialCharsDecode([c] + rest, quotes) == [c] + HtmlSpecialCharsDecode(rest, quotes)
  {
    var t := [c] + rest;
    Mismatch(t, "&amp;", 0);
    Mismatch(t, "&quot;", 0);
    Mismatch(t, "&#039;", 0);
    Mismatch(t, "&lt;", 0);
    Mismatch(t, "&gt;", 0);
    assert t[1..] == rest;
  }

  lemma DecodeAmpersand(rest: string, quotes: QuoteMode)
    ensures HtmlSpecialCharsDecode("&amp;" + rest, quotes) == "&" + HtmlSpecialCharsDecode(rest, quotes)
  {
    var t := "&amp;" + rest;
    assert t[..5] == "&amp;" && t[5..] == rest;
  }

  lemma DecodeDoubleQuote(rest: string, quotes: QuoteMode)
    ensures HtmlSpecialCharsDecode("&quot;" + rest, quotes) == "\"" + HtmlSpecialCharsDecode(rest, quotes)
  {
    var t := "&quot;" + rest;
    Mismatch(t, "&amp;", 1);
    assert t[..6] == "&quot;" && t[6..] == rest;
  }

  lemma DecodeSingleQuote(rest: string, quotes: QuoteMode)
    requires quotes == EntQuotes
    ensures HtmlSpecialCharsDecode("&#039;" + rest, quotes) == "'" + HtmlSpecialCharsDecode(rest, quotes)
  {
    var t := "&#039;" + rest;
    Mismatch(t, "&amp;", 1);
    Mismatch(t, "&quot;", 1);
    assert t[..6] == "&#039;" && t[6..] == rest;
  }

  lemma DecodeLessThan(rest: string, quotes: QuoteMode)
    ensures HtmlSpecialCharsDecode("&lt;" + rest, quotes) == "<" + HtmlSpecialCharsDecode(rest, quotes)
  {
    var t := "&lt;" + rest;
    Mismatch(t, "&amp;", 1);
    Mismatch(t, "&quot;", 1);
    Mismatch(t, "&#039;", 1);
    assert t[..4] == "&lt;" && t[4..] == rest;
  }

  lemma DecodeGreaterThan(rest: string, quotes: QuoteMode)
    ensures HtmlSpecialCharsDecode("&gt;" + rest, quotes) == ">" + HtmlSpecialCharsDecode(rest, quotes)
  {
    var t := "&gt;" + rest;
    Mismatch(t, "&amp;", 1);
    Mismatch(t, "&quot;", 1);
    Mismatch(t, "&#039;", 1);
    Mismatch(t, "&lt;", 1);
    assert t[..4] == "&gt;" && t[4..] == rest;
  }

  /** Escaping loses nothing: decoding with the same flags gives the text back. */
  lemma {:induction false} DecodeOfHtmlSpecialChars(s: string, quotes: QuoteMode)
    ensures HtmlSpecialCharsDecode(HtmlSpecialChars(s, quotes), quotes) == s
  {
    if s != [] {
      DecodeOfHtmlSpecialChars(s[1..], quotes);
      DecodeEscape(s[0], HtmlSpecialChars(s[1..], quotes), quotes);
      assert s == [s[0]] + s[1..];
    }
  }

  // ---------------------------------------------------------------- idempotence

  function Occurrences(s: string, c: char): nat
  {
    if s == [] then 0 else (if s[0] == c then 1 else 0) + Occurrences(s[1..], c)
  }

  lemma {:induction false} OccurrencesAppend(a: string, b: string, c: char)
    ensures Occurrences(a + b, c) == Occurrences(a, c) + Occurrences(b, c)
  {
    if a != [] {
      OccurrencesAppend(a[1..], b, c);
      assert (a + b)[1..] == a[1..] + b;
    } else {
      assert a + b == b;
    }
  }

  /** Number of characters htmlspecialchars() replaces. */
  function SpecialCount(s: string, quotes: QuoteMode): nat
  {
    if s == [] then 0 else (if IsSpecial(s[0], quotes) then 1 else 0) + SpecialCount(s[1..], quotes)
  }

  /** One replacement holds one '&' and one ';' when it is an entity. */
  lemma EscapeCounts(c: char, quotes: QuoteMode)
    ensures Occurrences(Escape(c, quotes), ';')
            == (if IsSpecial(c, quotes) then 1 else Occurrences([c], ';'))
    ensures Occurrences(Escape(c, quotes), '&') == (if IsSpecial(c, quotes) then 1 else 0)
  {
    if c == '&' {
      EntityCounts("&amp;", "amp");
    } else if c == '"' {
      EntityCounts("&quot;", "quot");
    } else if c == '\'' && quotes == EntQuotes {
      EntityCounts("&#039;", "#039");
    } else if c == '<' {
      EntityCounts("&lt;", "lt");
    } else if c == '>' {
      EntityCounts("&gt;", "gt");
    }
  }

  /** An entity `&name;` whose name holds neither '&' nor ';' has one of each. */
  lemma EntityCounts(e: string, name: string)
    requires e == "&" + name + ";"
    requires forall i :: 0 <= i < |name| ==> name[i] != ';' && name[i] != '&'
    ensures Occurrences(e, ';') == 1 && Occurrences(e, '&') == 1
  {
    OccurrencesAbsent(name, ';');
    OccurrencesAbsent(name, '&');
    OccurrencesAppend("&" + name, ";", ';');
    OccurrencesAppend("&" + name, ";", '&');
    OccurrencesAppend("&", name, ';');
    OccurrencesAppend("&", name, '&');
  }



  /** Each replaced character adds one ';' and contributes one '&'. */
  lemma {:induction false} EscapedCounts(s: string, quotes: QuoteMode)
    ensures Occurrences(HtmlSpecialChars(s, quotes), ';') == Occurrences(s, ';') + SpecialCount(s, quotes)
    ensures Occurrences(HtmlSpecialChars(s, quotes), '&') == SpecialCount(s, quotes)
    ensures SpecialCount(s, quotes) >= Occurrences(s, '&')
  {
    if s != [] {
      EscapedCounts(s[1..], quotes);
      var e := Escape(s[0], quotes);
      var rest := HtmlSpecialChars(s[1..], quotes);
      assert HtmlSpecialChars(s, quotes) == e + rest;
      OccurrencesAppend(e, rest, ';');
      OccurrencesAppend(e, rest, '&');
      EscapeCounts(s[0], quotes);
    }
  }

  /** stripslashes() keeps every character other than '\', '0' and NUL as often
      as it occurs. */
  lemma {:induction false} StripSlashesKeeps(s: string, c: char)
    requires c != '\\' && c != '0' && c != '\0'
    ensures Occurrences(StripSlashes(s), c) == Occurrences(s, c)
    decreases |s|
  {
    if s != [] {
      if s[0] == '\\' && |s| >= 2 {
        StripSlashesKeeps(s[2..], c);
        assert s[1..][1..] == s[2..];
      } else if s[0] != '\\' {
        StripSlashesKeeps(s[1..], c);
      }
    }
  }

  lemma {:induction false} OccurrencesSlice(s: string, lo: nat, hi: nat, c: char)
    requires lo <= hi <= |s|
    requires forall i :: 0 <= i < lo ==> s[i] != c
    requires forall i :: hi <= i < |s| ==> s[i] != c
    ensures Occurrences(s[lo..hi], c) == Occurrences(s, c)
  {
    assert s == s[..lo] + s[lo..hi] + s[hi..];
    OccurrencesAppend(s[..lo] + s[lo..hi], s[hi..], c);
    OccurrencesAppend(s[..lo], s[lo..hi], c);
    OccurrencesAbsent(s[..lo], c);
    OccurrencesAbsent(s[hi..], c);
  }

  lemma {:induction false} OccurrencesAbsent(s: string, c: char)
    requires forall i :: 0 <= i < |s| ==> s[i] != c
    ensures Occurrences(s, c) == 0
  {
    if s != [] {
      OccurrencesAbsent(s[1..], c);
    }
  }

  /** trim() keeps every character it does not strip as often as it occurs. */
  lemma TrimKeeps(s: string, c: char)
    requires !IsTrimmed(c)
    ensures Occurrences(Trim(s), c) == Occurrences(s, c)
  {
    var r := Trim(s);
    TrimSpec(s);
    OccurrencesSlice(s, TrimStart(s), TrimStart(s) + |r|, c);
  }

  /** Sanitising text that holds an '&' always changes it: sanitize_input is not
      idempotent on its own output. */
  lemma SanitizeChangesAmpersandText(y: string, quotes: QuoteMode)
    requires Occurrences(y, '&') > 0
    ensures SanitizeInput(y, quotes) != y
  {
    var z := StripSlashes(Trim(y));
    TrimKeeps(y, ';');
    TrimKeeps(y, '&');
    StripSlashesKeeps(Trim(y), ';');
    StripSlashesKeeps(Trim(y), '&');
    EscapedCounts(z, quotes);
    assert Occurrences(SanitizeInput(y, quotes), ';') > Occurrences(y, ';');
  }

  /** Any input holding '&', '<', '>' or '"' comes out holding an '&', so a second
      sanitize_input changes it again. */
  lemma SanitizeNotIdempotent(x: string, quotes: QuoteMode, c: char)
    requires c == '&' || c == '<' || c == '>' || c == '"'
    requires Occurrences(x, c) > 0
    ensures SanitizeInput(SanitizeInput(x, quotes), quotes) != SanitizeInput(x, quotes)
  {
    var z := StripSlashes(Trim(x));
    TrimKeeps(x, c);
    StripSlashesKeeps(Trim(x), c);
    assert Occurrences(z, c) > 0;
    SpecialAtLeast(z, quotes, c);
    EscapedCounts(z, quotes);
    SanitizeChangesAmpersandText(SanitizeInput(x, quotes), quotes);
  }

  lemma {:induction false} SpecialAtLeast(s: string, quotes: QuoteMode, c: char)
    requires IsSpecial(c, quotes)
    ensures SpecialCount(s, quotes) >= Occurrences(s, c)
  {
    if s != [] {
      SpecialAtLeast(s[1..], quotes, c);
    }
  }

  /** trim() runs before stripslashes(), so whitespace hidden behind a backslash
      survives: "\ x" comes out as " x". */
  lemma SanitizedMayStartWithSpace(quotes: QuoteMode)
    ensures SanitizeInput("\\ x", quotes) == " x"
  {
    TrimExample();
    StripSlashesExample();
    EscapeExample(quotes);
  }

  lemma TrimExample()
    ensures Trim("\\ x") == "\\ x"
  {
    var input := "\\ x";
    assert TrimLeft(input) == input;
    assert TrimRight(input) == input;
  }

  lemma StripSlashesExample()
    ensures StripSlashes("\\ x") == " x"
  {
    var input := "\\ x";
    assert input[2..] == "x" && "x"[1..] == [];
    assert StripSlashes("x") == "x";
  }

  lemma EscapeExample(quotes: QuoteMode)
    ensures HtmlSpecialChars(" x", quotes) == " x"
  {
    assert " x"[1..] == "x" && "x"[1..] == [];
    assert Escape(' ', quotes) == " " && Escape('x', quotes) == "x";
    assert HtmlSpecialChars("x", quotes) == "x";
  }

  // ---------------------------------------------------------------- check_session

  /** check_session(): without a user_id in the session the page redirects to
      the login page and stops; with one it carries on (None). */
  function CheckSession(session: Session): (r: Option<Response>)
    reads session
    ensures r.Some? <==> !session.LoggedIn()
    ensures r.Some? ==> r.value == Redirect(LoginUrl)
  {
    if session.LoggedIn() then None else Some(Redirect(LoginUrl))
  }
}
