/**
 * How a shell splits a command line into arguments: blanks outside quotes separate words, and
 * quote removal follows sections 2.2.1 to 2.2.3 of the POSIX.1 Shell Command Language.
 * There are no expansions: a character that would start one, or end the command, is an error outside quotes.
 */
module Shell {
  import opened Util

  datatype Quoting = Plain | Single | Double

  predicate IsBlank(c: char) {
    c == ' ' || c == '\t'
  }

  /** Operators, expansions and patterns: not allowed outside quotes. */
  predicate IsActive(c: char) {
    c in {'|', '&', ';', '<', '>', '(', ')', '$', '`', '\n', '*', '?'}
  }

  function WordSoFar(w: Option<string>): string {
    if w.Some? then w.value else ""
  }

  function Extend(w: Option<string>, c: char): Option<string> {
    Some(WordSoFar(w) + [c])
  }

  function Cons(word: string, words: Option<seq<string>>): Option<seq<string>> {
    if words.Some? then Some([word] + words.value) else None
  }

  /**
   * Reads on from inside `q`, `w` being the word under way if there is one. With `comments`, a number
   * sign that begins a word starts a comment (section 2.3, rule 9), as it does in a shell.
   */
  function Scan(s: string, q: Quoting, w: Option<string>, comments: bool): Option<seq<string>>
    decreases |s|
  {
    if s == "" then
      if q != Plain then None else Some(if w.Some? then [w.value] else [])
    else
      var c, t := s[0], s[1..];
      match q
      case Plain =>
        if IsBlank(c) then
          if w.Some? then Cons(w.value, Scan(t, Plain, None, comments)) else Scan(t, Plain, None, comments)
        else if c == '\\' then
          if t == "" then None
          else if t[0] == '\n' then Scan(t[1..], Plain, w, comments)
          else Scan(t[1..], Plain, Extend(w, t[0]), comments)
        else if c == '\'' then Scan(t, Single, Some(WordSoFar(w)), comments)
        else if c == '"' then Scan(t, Double, Some(WordSoFar(w)), comments)
        else if comments && c == '#' && w.None? then if '\n' in t then None else Some([])
        else if IsActive(c) then None
        else Scan(t, Plain, Extend(w, c), comments)
      case Single =>
        if c == '\'' then Scan(t, Plain, w, comments) else Scan(t, Single, Extend(w, c), comments)
      case Double =>
        if c == '"' then Scan(t, Plain, w, comments)
        else if c == '$' || c == '`' then None
        else if c == '\\' && t != "" && t[0] == '\n' then Scan(t[1..], Double, w, comments)
        else if c == '\\' && t != "" && t[0] in {'$', '`', '"', '\\'} then
          Scan(t[1..], Double, Extend(w, t[0]), comments)
        else Scan(t, Double, Extend(w, c), comments)
  }

  function Split(s: string, comments: bool): Option<seq<string>> {
    Scan(s, Plain, None, comments)
  }

  function Append(x: seq<string>, y: Option<seq<string>>): Option<seq<string>> {
    if y.Some? then Some(x + y.value) else None
  }

  // ---- What each way of writing a word reads as ----

  /** A character that stands for itself outside quotes. */
  predicate IsLiteral(c: char) {
    !IsBlank(c) && !IsActive(c) && c != '\\' && c != '\'' && c != '"'
  }

  lemma {:induction false} ScanLiteral(s: string, w: Option<string>, rest: string, comments: bool)
    requires forall i :: 0 <= i < |s| ==> IsLiteral(s[i])
    requires s != "" || w.Some?
    requires comments && w.None? ==> s[0] != '#'
    ensures Scan(s + rest, Plain, w, comments) == Scan(rest, Plain, Some(WordSoFar(w) + s), comments)
    decreases |s|
  {
    hide Scan, IsLiteral;
    if s == "" {
      assert s + rest == rest && WordSoFar(w) + s == w.value;
    } else {
      ScanLiteral(s[1..], Extend(w, s[0]), rest, comments);
      ScanOneLiteral(s[0], s[1..] + rest, w, comments);
      FirstOut(s, rest, WordSoFar(w));
    }
  }

  lemma FirstOut(s: string, rest: string, word: string)
    requires s != ""
    ensures s + rest == [s[0]] + (s[1..] + rest) && (word + [s[0]]) + s[1..] == word + s
  {
  }

  lemma ScanOneLiteral(c: char, t: string, w: Option<string>, comments: bool)
    requires IsLiteral(c) && (comments && w.None? ==> c != '#')
    ensures Scan([c] + t, Plain, w, comments) == Scan(t, Plain, Extend(w, c), comments)
  {
    assert ([c] + t)[1..] == t;
  }

  /** The body of a single-quoted word: a quote inside is closed, escaped and reopened. */
  function SingleBody(s: string): (b: string) {
    if s == "" then "" else (if s[0] == '\'' then "'\\''" else [s[0]]) + SingleBody(s[1..])
  }

  lemma {:induction false} ScanSingle(s: string, w: string, rest: string, comments: bool)
    ensures Scan(SingleBody(s) + "'" + rest, Single, Some(w), comments) == Scan(rest, Plain, Some(w + s), comments)
    decreases |s|
  {
    if s == "" {
      assert (SingleBody(s) + "'" + rest)[1..] == rest && w + s == w;
    } else {
      var body := SingleBody(s[1..]) + "'" + rest;
      ScanSingle(s[1..], w + [s[0]], rest, comments);
      assert w + [s[0]] + s[1..] == w + s;
      if s[0] == '\'' {
        assert SingleBody(s) + "'" + rest == "'\\''" + body;
        ScanReopened(body, w, comments);
      } else {
        assert SingleBody(s) + "'" + rest == [s[0]] + body;
        assert ([s[0]] + body)[1..] == body;
      }
    }
  }

  lemma ScanReopened(t: string, w: string, comments: bool)
    ensures Scan("'\\''" + t, Single, Some(w), comments) == Scan(t, Single, Some(w + "'"), comments)
  {
    assert ("'\\''" + t)[1..] == "\\''" + t;
    assert ("\\''" + t)[1..] == "''" + t;
    assert ("''" + t)[1..] == "'" + t;
    assert ("'" + t)[1..] == t;
    assert Scan("'\\''" + t, Single, Some(w), comments) == Scan("\\''" + t, Plain, Some(w), comments);
    assert Scan("\\''" + t, Plain, Some(w), comments) == Scan("'" + t, Plain, Some(w + "'"), comments);
    assert Scan("'" + t, Plain, Some(w + "'"), comments) == Scan(t, Single, Some(w + "'"), comments);
  }

  /** A character that keeps its meaning inside double quotes. */
  predicate IsDoubleSafe(c: char) {
    c != '"' && c != '`' && c != '$' && c != '\\'
  }

  lemma {:induction false} ScanDouble(s: string, w: string, rest: string, comments: bool)
    requires forall i :: 0 <= i < |s| ==> IsDoubleSafe(s[i])
    ensures Scan(s + "\"" + rest, Double, Some(w), comments) == Scan(rest, Plain, Some(w + s), comments)
    decreases |s|
  {
    if s == "" {
      assert (s + "\"" + rest)[1..] == rest && w + s == w;
    } else {
      ScanDouble(s[1..], w + [s[0]], rest, comments);
      assert w + [s[0]] + s[1..] == w + s;
      assert s + "\"" + rest == [s[0]] + (s[1..] + "\"" + rest);
      assert ([s[0]] + (s[1..] + "\"" + rest))[1..] == s[1..] + "\"" + rest;
      assert IsDoubleSafe(s[0]);
    }
  }

  // ---- Text without words ----

  /** Blanks and line continuations only. */
  predicate IsWordless(s: string) {
    if s == "" then true
    else if IsBlank(s[0]) then IsWordless(s[1..])
    else |s| >= 2 && s[0] == '\\' && s[1] == '\n' && IsWordless(s[2..])
  }

  /** A word once begun is part of every reading. */
  lemma {:induction false} ScanKeepsWord(s: string, q: Quoting, w: string, comments: bool)
    ensures Scan(s, q, Some(w), comments).Some? ==> |Scan(s, q, Some(w), comments).value| >= 1
    decreases |s|
  {
    if s != "" {
      var c, t := s[0], s[1..];
      ScanKeepsWord(t, Plain, w, comments);
      ScanKeepsWord(t, Single, w, comments);
      ScanKeepsWord(t, Double, w, comments);
      ScanKeepsWord(t, q, w + [c], comments);
      if t != "" {
        ScanKeepsWord(t[1..], q, w, comments);
        ScanKeepsWord(t[1..], q, w + [t[0]], comments);
      }
    }
  }

  lemma {:induction false} WordlessIffNoWords(s: string)
    ensures Split(s, false) == Some([]) <==> IsWordless(s)
    decreases |s|
  {
    if s != "" {
      var c, t := s[0], s[1..];
      WordlessIffNoWords(t);
      ScanKeepsWord(t, Single, "", false);
      ScanKeepsWord(t, Double, "", false);
      ScanKeepsWord(t, Plain, "" + [c], false);
      if t != "" {
        assert s[2..] == t[1..];
        WordlessIffNoWords(t[1..]);
        ScanKeepsWord(t[1..], Plain, "" + [t[0]], false);
      }
    }
  }
}
