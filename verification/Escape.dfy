/** st_escape and st_escape_args: printing arguments so that a shell reads them back. */
module Escape {
  import opened Util
  import opened CStrings
  import opened Shell

  const OK_CHARS: string := "[]~#^_-+=:.,/"

  /** isalnum in the C locale. */
  predicate IsAlnum(c: char) {
    '0' <= c <= '9' || 'A' <= c <= 'Z' || 'a' <= c <= 'z'
  }

  predicate IsSafe(c: char) {
    IsAlnum(c) || c in OK_CHARS
  }

  // ---- How a word is written ----

  predicate MustQuote(s: string) {
    s == "" || exists i :: 0 <= i < |s| && !IsSafe(s[i])
  }

  predicate UsesDouble(s: string) {
    '\'' in s && forall i :: 0 <= i < |s| ==> IsDoubleSafe(s[i])
  }

  function Quoted(s: string): string {
    if UsesDouble(s) then "\"" + s + "\"" else "'" + SingleBody(s) + "'"
  }

  function Escaped(s: string): string {
    if MustQuote(s) then Quoted(s) else s
  }

  /** Every escaped word followed by a blank. */
  function Joined(args: seq<string>): string {
    if args == [] then "" else Escaped(args[0]) + " " + Joined(args[1..])
  }

  // ---- How a word is written, in characters ----

  /** Letters, digits and thirteen more. */
  predicate IsPlain(c: char) {
    || 'a' <= c <= 'z' || 'A' <= c <= 'Z' || '0' <= c <= '9'
    || c == '[' || c == ']' || c == '~' || c == '#' || c == '^' || c == '_' || c == '-'
    || c == '+' || c == '=' || c == ':' || c == '.' || c == ',' || c == '/'
  }

  predicate PlainWord(s: string) {
    s != "" && forall i :: 0 <= i < |s| ==> IsPlain(s[i])
  }

  lemma SafeIsPlain(c: char)
    ensures IsSafe(c) <==> IsPlain(c)
  {
    assert OK_CHARS == ['[', ']', '~', '#', '^', '_', '-', '+', '=', ':', '.', ',', '/'];
  }

  /** Exactly the other words are quoted. */
  lemma QuotedUnlessPlain(s: string)
    ensures MustQuote(s) <==> !PlainWord(s)
  {
    hide IsSafe, IsPlain;
    forall i | 0 <= i < |s|
      ensures IsSafe(s[i]) <==> IsPlain(s[i])
    {
      SafeIsPlain(s[i]);
    }
  }

  /** An apostrophe, and no character that stays special inside double quotes. */
  predicate TakesDouble(s: string) {
    '\'' in s && '"' !in s && '`' !in s && '$' !in s && '\\' !in s
  }

  lemma DoubleIsTaken(s: string)
    ensures UsesDouble(s) <==> TakesDouble(s)
  {
    if '\'' in s && !TakesDouble(s) {
      var i :| 0 <= i < |s| && s[i] in {'"', '`', '$', '\\'};
      assert !IsDoubleSafe(s[i]);
    }
  }

  /** Two quotes more for a word that is quoted, and three characters for each apostrophe in single quotes. */
  function EscapedSize(s: string): nat {
    if PlainWord(s) then |s|
    else if TakesDouble(s) then |s| + 2
    else |s| + 2 + 3 * Apostrophes(s)
  }

  function Apostrophes(s: string): nat {
    multiset(s)['\'']
  }

  lemma {:induction false} SingleBodySize(s: string)
    ensures |SingleBody(s)| == |s| + 3 * Apostrophes(s)
  {
    if s != "" {
      SingleBodySize(s[1..]);
      assert s == [s[0]] + s[1..];
    }
  }

  /** A plain word is written as it is, any other in quotes, and this is how long it gets. */
  lemma EscapedIs(s: string)
    ensures |Escaped(s)| == EscapedSize(s)
    ensures PlainWord(s) ==> Escaped(s) == s
    ensures !PlainWord(s) && TakesDouble(s) ==> Escaped(s) == ['"'] + s + ['"']
    ensures !PlainWord(s) && !TakesDouble(s) && '\'' !in s ==> Escaped(s) == ['\''] + s + ['\'']
  {
    QuotedUnlessPlain(s);
    DoubleIsTaken(s);
    hide PlainWord, TakesDouble, UsesDouble, MustQuote, Apostrophes;
    SingleBodySize(s);
    if '\'' !in s {
      NothingReopened(s);
    }
  }

  lemma {:induction false} NothingReopened(s: string)
    requires '\'' !in s
    ensures SingleBody(s) == s
  {
    if s != "" {
      NothingReopened(s[1..]);
      assert s == [s[0]] + s[1..];
    }
  }

  /** In the printed line every word stands where the words before it end, with a blank behind it. */
  lemma JoinedAt(args: seq<string>, i: nat)
    requires i < |args|
    ensures var at, end := |Joined(args[..i])|, |Joined(args[..i])| + EscapedSize(args[i]);
            && end < |Joined(args)| && Joined(args)[at..end] == Escaped(args[i]) && Joined(args)[end] == ' '
    ensures i + 1 == |args| ==> |Joined(args)| == |Joined(args[..i])| + EscapedSize(args[i]) + 1
  {
    hide Joined, Escaped, EscapedSize;
    EscapedIs(args[i]);
    JoinedStep(args, i);
    JoinedParts(args, i + 1);
    assert i + 1 == |args| ==> args[..i + 1] == args;
  }

  lemma {:induction false} JoinedParts(args: seq<string>, i: nat)
    requires i <= |args|
    ensures Joined(args[..i]) <= Joined(args)
    decreases |args| - i
  {
    hide Joined;
    if i == |args| {
      assert args[..i] == args;
    } else {
      JoinedStep(args, i);
      JoinedParts(args, i + 1);
    }
  }

  lemma SafeIsLiteral(c: char)
    requires IsSafe(c)
    ensures IsLiteral(c)
  {
  }

  lemma ScanQuotedDouble(s: string, rest: string, comments: bool)
    requires forall i :: 0 <= i < |s| ==> IsDoubleSafe(s[i])
    ensures Scan("\"" + s + "\"" + rest, Plain, None, comments) == Scan(rest, Plain, Some(s), comments)
  {
    var t := s + "\"" + rest;
    ScanDouble(s, "", rest, comments);
    assert "" + s == s;
    assert "\"" + s + "\"" + rest == "\"" + t;
    assert ("\"" + t)[1..] == t;
  }

  lemma ScanQuotedSingle(s: string, rest: string, comments: bool)
    ensures Scan("'" + SingleBody(s) + "'" + rest, Plain, None, comments) == Scan(rest, Plain, Some(s), comments)
  {
    var t := SingleBody(s) + "'" + rest;
    ScanSingle(s, "", rest, comments);
    assert "" + s == s;
    assert "'" + SingleBody(s) + "'" + rest == "'" + t;
    assert ("'" + t)[1..] == t;
  }

  /** A word that is printed as it is and that a shell takes for a comment. */
  predicate StartsComment(s: string) {
    !MustQuote(s) && s[0] == '#'
  }

  /** One escaped word, whatever comes after it, is read as that word. */
  lemma ScanEscaped(s: string, rest: string, comments: bool)
    requires comments ==> !StartsComment(s)
    ensures Scan(Escaped(s) + rest, Plain, None, comments) == Scan(rest, Plain, Some(s), comments)
  {
    hide Scan, IsLiteral, IsSafe, SingleBody, IsDoubleSafe;
    if !MustQuote(s) {
      forall i | 0 <= i < |s|
        ensures IsLiteral(s[i])
      {
        SafeIsLiteral(s[i]);
      }
      ScanLiteral(s, None, rest, comments);
      assert WordSoFar(None) + s == s;
    } else if UsesDouble(s) {
      ScanQuotedDouble(s, rest, comments);
    } else {
      ScanQuotedSingle(s, rest, comments);
    }
  }

  lemma ScanBlank(t: string, w: string, comments: bool)
    ensures Scan(" " + t, Plain, Some(w), comments) == Cons(w, Split(t, comments))
  {
    assert (" " + t)[1..] == t;
  }

  lemma FirstWord(args: seq<string>, rest: string)
    requires args != []
    ensures Joined(args) + rest == Escaped(args[0]) + (" " + (Joined(args[1..]) + rest))
  {
    hide Escaped;
    Reassociate(Escaped(args[0]), " ", Joined(args[1..]), rest);
  }

  lemma Reassociate(x: string, y: string, z: string, rest: string)
    ensures x + y + z + rest == x + (y + (z + rest))
  {
  }

  lemma AppendNothing(words: Option<seq<string>>)
    ensures Append([], words) == words
  {
    if words.Some? {
      assert [] + words.value == words.value;
    }
  }

  lemma AppendFirst(args: seq<string>, words: Option<seq<string>>)
    requires args != []
    ensures Append(args, words) == Cons(args[0], Append(args[1..], words))
  {
    if words.Some? {
      assert args + words.value == [args[0]] + (args[1..] + words.value);
    }
  }

  /** Splitting the printed words gives the words, then whatever follows them. */
  lemma {:induction false} SplitJoined(args: seq<string>, rest: string, comments: bool)
    requires comments ==> forall i :: 0 <= i < |args| ==> !StartsComment(args[i])
    ensures Split(Joined(args) + rest, comments) == Append(args, Split(rest, comments))
  {
    if args == [] {
      assert Joined(args) + rest == rest;
      AppendNothing(Split(rest, comments));
    } else {
      hide Scan, Escaped, Joined, Append, Cons;
      var tail := Joined(args[1..]) + rest;
      SplitJoined(args[1..], rest, comments);
      FirstWord(args, rest);
      ScanEscaped(args[0], " " + tail, comments);
      ScanBlank(tail, args[0], comments);
      AppendFirst(args, Split(rest, comments));
    }
  }

  lemma ScanComment(s: string, rest: string)
    requires StartsComment(s)
    ensures Split(Escaped(s) + rest, true) == None || Split(Escaped(s) + rest, true) == Some([])
  {
    assert (s + rest)[0] == '#';
  }

  /**
   * A shell that knows comments reads the printed words back exactly when none of them is
   * printed bare and begins with a number sign.
   */
  lemma ReadsBackWithCommentsIff(args: seq<string>)
    ensures Split(Joined(args), true) == Some(args) <==> forall i :: 0 <= i < |args| ==> !StartsComment(args[i])
  {
    hide Scan, StartsComment, Joined, Escaped;
    var k := FirstComment(args);
    if k == |args| {
      SplitJoined(args, "", true);
      EmptyLine();
      assert Joined(args) + "" == Joined(args) && args + [] == args;
    } else {
      var rest := " " + Joined(args[k + 1..]);
      JoinedSplit(args, k);
      SplitJoined(args[..k], Escaped(args[k]) + rest, true);
      ScanComment(args[k], rest);
    }
  }

  lemma EmptyLine()
    ensures Split("", true) == Some([])
  {
  }

  lemma {:induction false} JoinedSplit(args: seq<string>, k: nat)
    requires k < |args|
    ensures Joined(args) == Joined(args[..k]) + (Escaped(args[k]) + (" " + Joined(args[k + 1..])))
  {
    hide Escaped;
    if k > 0 {
      JoinedSplit(args[1..], k - 1);
      assert args[..k][1..] == args[1..][..k - 1] && args[1..][k..] == args[k + 1..];
    }
  }

  function FirstComment(args: seq<string>): (k: nat)
    ensures k <= |args|
    ensures forall i :: 0 <= i < k ==> !StartsComment(args[i])
    ensures k < |args| ==> StartsComment(args[k])
  {
    if args == [] || StartsComment(args[0]) then 0 else 1 + FirstComment(args[1..])
  }

  /** An argument that only holds a number sign is lost, with all after it. */
  lemma NumberSignIsLost()
    ensures Joined(["#", "a"]) == "# a " && Split("# a ", true) == Some([])
  {
    assert !MustQuote("#") && !MustQuote("a");
    assert ["#", "a"][1..] == ["a"] && ["a"][1..] == [];
    assert Joined(["a"]) == "a" + " " + Joined([]);
    assert Joined(["#", "a"]) == "#" + " " + Joined(["a"]);
  }

  /** Without the last blank, too. */
  lemma {:induction false} SplitUnfinished(args: seq<string>)
    requires args != []
    ensures |Joined(args)| >= 1
    ensures Split(Joined(args)[..|Joined(args)| - 1], false) == Some(args)
  {
    var init, last := args[..|args| - 1], args[|args| - 1];
    assert init + [last] == args;
    JoinedSnoc(init, last);
    var s := Joined(init) + Escaped(last);
    assert Joined(args)[..|Joined(args)| - 1] == s;
    SplitJoined(init, Escaped(last), false);
    ScanEscaped(last, "", false);
    assert Escaped(last) + "" == Escaped(last);
  }

  lemma {:induction false} JoinedSnoc(args: seq<string>, last: string)
    ensures Joined(args + [last]) == Joined(args) + Escaped(last) + " "
  {
    hide Escaped;
    if args == [] {
      assert Joined([last]) == Escaped(last) + " " + Joined([]);
    } else {
      JoinedSnoc(args[1..], last);
      assert (args + [last])[1..] == args[1..] + [last];
      Regrouped(Escaped(args[0]) + " ", Joined(args[1..]), Escaped(last), " ");
    }
  }

  lemma Regrouped(x: string, y: string, z: string, r: string)
    ensures x + (y + z + r) == (x + y) + z + r
  {
  }

  lemma {:induction false} SingleBodyNoNul(s: string)
    requires NoNul(s)
    ensures NoNul(SingleBody(s))
  {
    if s != "" {
      SingleBodyNoNul(s[1..]);
    }
  }

  lemma EscapedNoNul(s: string)
    requires NoNul(s)
    ensures NoNul(Escaped(s)) && |Escaped(s)| >= 1
  {
    SingleBodyNoNul(s);
  }

  // ---- Writing into a buffer ----

  /** `was` with `text` written at `off`. */
  function Overlay(was: string, off: nat, text: string): (now: string)
    requires off + |text| <= |was|
    ensures |now| == |was|
  {
    was[..off] + text + was[off + |text|..]
  }

  lemma OverlayNext(was: string, off: nat, x: string, y: string)
    requires off + |x| + |y| <= |was|
    ensures Overlay(Overlay(was, off, x), off + |x|, y) == Overlay(was, off, x + y)
  {
  }

  /** Writing over the last character of what was written. */
  lemma OverlayLast(was: string, off: nat, x: string, c: char, d: char)
    requires off + |x| < |was|
    ensures Overlay(was, off, x + [c])[off + |x| := d] == Overlay(was, off, x + [d])
  {
  }

  lemma OverlayNothing(was: string, off: nat)
    requires off <= |was|
    ensures Overlay(was, off, "") == was
  {
  }

  /** `text` was appended to `before` as far as the window, less its last byte, allows. */
  ghost predicate Appended(was: string, off: nat, ansLen: nat, before: string, text: string, now: string, n: nat,
      ok: bool) {
    && |before| <= n < ansLen && off + ansLen <= |was|
    && (ok ==> n == |before| + |text| && now == Overlay(was, off, before + text))
    && (!ok ==> n == ansLen - 1 < |before| + |text| && now == Overlay(was, off, before + text[..n - |before|]))
  }

  /** Appending a front part and then the rest is appending the whole. */
  lemma AppendedMore(was: string, off: nat, ansLen: nat, before: string, x: string, y: string, now: string, n: nat,
      ok: bool)
    requires Appended(was, off, ansLen, before + x, y, now, n, ok)
    ensures Appended(was, off, ansLen, before, x + y, now, n, ok)
  {
    assert before + x + y == before + (x + y);
    if !ok {
      CutInside(before, x, y, n);
    }
  }

  /** Appending that stops in a front part stops in the whole. */
  lemma AppendedPart(was: string, off: nat, ansLen: nat, before: string, x: string, y: string, now: string, n: nat)
    requires Appended(was, off, ansLen, before, x, now, n, false)
    ensures Appended(was, off, ansLen, before, x + y, now, n, false)
  {
    assert (x + y)[..n - |before|] == x[..n - |before|];
  }

  /** Copies `text` to position n of the window, stopping short of the window's last byte. */
  method Put(text: string, ans: array<char>, off: nat, ansLen: nat, n0: nat, ghost was: string, ghost before: string)
    returns (n: nat, ok: bool)
    requires 1 <= ansLen && off + ansLen <= ans.Length == |was|
    requires n0 == |before| < ansLen && ans[..] == Overlay(was, off, before)
    modifies ans
    ensures Appended(was, off, ansLen, before, text, ans[..], n, ok)
  {
    hide Overlay;
    n := n0;
    assert text[..0] == "" && before + "" == before;
    var i: nat := 0;
    while i < |text|
      invariant i <= |text| && n == n0 + i < ansLen
      invariant ans[..] == Overlay(was, off, before + text[..i])
    {
      if n >= ansLen - 1 {
        return n, false;
      }
      OverlayNext(was, off, before + text[..i], [text[i]]);
      assert before + text[..i] + [text[i]] == before + text[..i + 1];
      OverlayOne(ans[..], off + n, text[i]);
      ans[off + n] := text[i];
      n := n + 1;
      i := i + 1;
    }
    assert text[..i] == text;
    return n, true;
  }

  /** What the loop of `quote` writes for `s`; the escape string is only needed for the quote itself. */
  function Body(s: string, q: char, esc: string): string {
    if s == "" then "" else Piece(s[0], q, esc) + Body(s[1..], q, esc)
  }

  function Piece(c: char, q: char, esc: string): string {
    if c == q then esc else [c]
  }

  lemma {:induction false} BodyIsSingle(s: string)
    ensures Body(s, '\'', "'\\''") == SingleBody(s)
  {
    if s != "" {
      BodyIsSingle(s[1..]);
    }
  }

  /** In double quotes nothing is ever escaped. */
  lemma {:induction false} BodyIsPlain(s: string, q: char, esc: string)
    requires q !in s
    ensures Body(s, q, esc) == s
  {
    if s != "" {
      BodyIsPlain(s[1..], q, esc);
    }
  }

  lemma QuotedIsBody(s: string)
    ensures UsesDouble(s) ==> Quoted(s) == "\"" + Body(s, '"', "\\\"") + "\""
    ensures !UsesDouble(s) ==> Quoted(s) == "'" + Body(s, '\'', "'\\''") + "'"
  {
    if UsesDouble(s) {
      BodyIsPlain(s, '"', "\\\"");
    } else {
      BodyIsSingle(s);
    }
  }

  lemma {:induction false} BodyConcat(x: string, y: string, q: char, esc: string)
    ensures Body(x + y, q, esc) == Body(x, q, esc) + Body(y, q, esc)
  {
    hide Piece, Body;
    if x == "" {
      BodyOfNothing(q, esc);
      assert x + y == y && "" + Body(y, q, esc) == Body(y, q, esc);
    } else {
      BodyConcat(x[1..], y, q, esc);
      BodyFirst(x, q, esc);
      BodyFirst(x + y, q, esc);
      assert (x + y)[1..] == x[1..] + y;
      Associates(Piece(x[0], q, esc), Body(x[1..], q, esc), Body(y, q, esc));
    }
  }

  lemma BodyFirst(x: string, q: char, esc: string)
    requires x != ""
    ensures Body(x, q, esc) == Piece(x[0], q, esc) + Body(x[1..], q, esc)
  {
  }

  lemma Associates(x: string, y: string, z: string)
    ensures x + (y + z) == (x + y) + z
  {
  }

  lemma BodyParts(s: string, i: nat, q: char, esc: string)
    requires i < |s|
    ensures Body(s[..i + 1], q, esc) == Body(s[..i], q, esc) + Piece(s[i], q, esc)
    ensures Body(s, q, esc) == Body(s[..i + 1], q, esc) + Body(s[i + 1..], q, esc)
  {
    hide Piece;
    var one := [s[i]];
    assert one[1..] == "" && Body(one, q, esc) == Piece(s[i], q, esc) + "";
    BodyConcat(s[..i], one, q, esc);
    assert s[..i + 1] == s[..i] + one;
    BodyConcat(s[..i + 1], s[i + 1..], q, esc);
    assert s == s[..i + 1] + s[i + 1..];
  }

  /** A text cut at `n`, at the end of its front part or later. */
  lemma CutInside(x: string, y: string, z: string, n: nat)
    requires |x| + |y| <= n <= |x| + |y| + |z|
    ensures x + y + z[..n - |x| - |y|] == x + (y + z)[..n - |x|]
  {
  }

  method PutBody(str: string, q: char, esc: string, ans: array<char>, off: nat, ansLen: nat, n0: nat,
                 ghost was: string, ghost before: string)
    returns (n: nat, ok: bool)
    requires 1 <= ansLen && off + ansLen <= ans.Length == |was|
    requires n0 == |before| < ansLen && ans[..] == Overlay(was, off, before)
    modifies ans
    ensures Appended(was, off, ansLen, before, Body(str, q, esc), ans[..], n, ok)
  {
    hide Overlay, Body, Piece;
    n := n0;
    var i: nat := 0;
    assert str[..0] == "" && before + "" == before;
    BodyOfNothing(q, esc);
    while i < |str|
      invariant i <= |str| && Appended(was, off, ansLen, before, Body(str[..i], q, esc), ans[..], n, true)
    {
      hide Appended;
      BodyParts(str, i, q, esc);
      ghost var done := Body(str[..i], q, esc);
      AppendedState(was, off, ansLen, before, done, ans[..], n);
      n, ok := Put(Piece(str[i], q, esc), ans, off, ansLen, n, was, before + done);
      AppendedMore(was, off, ansLen, before, done, Piece(str[i], q, esc), ans[..], n, ok);
      i := i + 1;
      if !ok {
        AppendedPart(was, off, ansLen, before, Body(str[..i], q, esc), Body(str[i..], q, esc), ans[..], n);
        return n, false;
      }
    }
    assert str[..i] == str;
    return n, true;
  }

  lemma AppendedState(was: string, off: nat, ansLen: nat, before: string, text: string, now: string, n: nat)
    requires Appended(was, off, ansLen, before, text, now, n, true)
    ensures n == |before + text| < ansLen && off + ansLen <= |was| && now == Overlay(was, off, before + text)
  {
  }

  /** What `quote` leaves behind. */
  lemma AppendedAll(was: string, off: nat, ansLen: nat, text: string, now: string, n: nat, ok: bool)
    requires Appended(was, off, ansLen, "", text, now, n, ok)
    ensures ok <==> |text| < ansLen
    ensures n == if ok then |text| else ansLen - 1
    ensures off + ansLen <= |was| && now == Overlay(was, off, text[..n])
  {
    assert "" + text == text && text[..|text|] == text;
    if !ok {
      assert "" + text[..n] == text[..n];
    }
  }

  /** quote: the quoted text and a NUL if they fit, otherwise -1 and as much text as leaves a byte. */
  method Quote(str: string, ans: array<char>, off: nat, ansLen: nat) returns (r: int)
    requires NoNul(str) && 1 <= ansLen && off + ansLen <= ans.Length
    modifies ans
    ensures r == if |Quoted(str)| < ansLen then 0 else -1
    ensures ans[..] == Overlay(old(ans[..]), off, if r == 0 then Quoted(str) + "\0" else Quoted(str)[..ansLen - 1])
  {
    hide Overlay, Quoted, Body, UsesDouble, IsDoubleSafe, Appended;
    ghost var was := ans[..];
    var q, esc := '\'', "'\\''";
    if UsesDouble(str) {
      q, esc := '"', "\\\"";
    }
    ghost var body := Body(str, q, esc);
    QuotedIsBody(str);
    assert Quoted(str) == [q] + body + [q];
    OverlayNothing(was, off);
    assert "" + [q] == [q] && "" + ([q] + body) == [q] + body;
    var n, ok := Put([q], ans, off, ansLen, 0, was, "");
    if ok {
      AppendedState(was, off, ansLen, "", [q], ans[..], n);
      n, ok := PutBody(str, q, esc, ans, off, ansLen, n, was, [q]);
      AppendedMore(was, off, ansLen, "", [q], body, ans[..], n, ok);
      if ok {
        AppendedState(was, off, ansLen, "", [q] + body, ans[..], n);
        n, ok := Put([q], ans, off, ansLen, n, was, [q] + body);
        AppendedMore(was, off, ansLen, "", [q] + body, [q], ans[..], n, ok);
      } else {
        AppendedPart(was, off, ansLen, "", [q] + body, [q], ans[..], n);
      }
    } else {
      AppendedPart(was, off, ansLen, "", [q], body, ans[..], n);
      AppendedPart(was, off, ansLen, "", [q] + body, [q], ans[..], n);
    }
    AppendedAll(was, off, ansLen, Quoted(str), ans[..], n, ok);
    if !ok {
      return -1;
    }
    assert Quoted(str)[..n] == Quoted(str);
    OverlayNext(was, off, Quoted(str), ['\0']);
    OverlayOne(ans[..], off + n, '\0');
    ans[off + n] := '\0';
    return 0;
  }

  lemma BodyOfNothing(q: char, esc: string)
    ensures Body("", q, esc) == ""
  {
  }

  lemma OverlayOne(was: string, k: nat, c: char)
    requires k < |was|
    ensures Overlay(was, k, [c]) == was[k := c]
  {
  }

  lemma OverlayFrame(was: string, off: nat, text: string, window: nat)
    requires |text| <= window && off + window <= |was|
    ensures var now := Overlay(was, off, text);
            now[..off] == was[..off] && now[off + window..] == was[off + window..]
  {
  }

  /** need_quote. */
  method NeedQuote(str: string) returns (r: bool)
    requires NoNul(str)
    ensures r <==> MustQuote(str)
  {
    if str == "" {
      return true;
    }
    for c := 0 to |str|
      invariant forall j :: 0 <= j < c ==> IsSafe(str[j])
    {
      if !IsAlnum(str[c]) {
        var d := 0;
        while d < |OK_CHARS| && str[c] != OK_CHARS[d]
          invariant 0 <= d <= |OK_CHARS|
          invariant str[c] !in OK_CHARS[..d]
        {
          d := d + 1;
        }
        if d == |OK_CHARS| {
          assert OK_CHARS[..d] == OK_CHARS;
          return true;
        }
      }
    }
    return false;
  }

  /**
   * st_escape: 0 exactly when the escaped word and its NUL fit. For a word to be quoted and no buffer at all the
   * room check of `quote`, against ans_len - 1, wraps around and the word is written; the model stops there.
   */
  method EscapeOne(str: string, ans: array<char>, off: nat, ansLen: nat) returns (r: int, overrun: bool)
    requires NoNul(str) && off + ansLen <= ans.Length
    modifies ans
    ensures overrun <==> ansLen == 0 && !PlainWord(str)
    ensures |Escaped(str)| == EscapedSize(str) && (PlainWord(str) ==> Escaped(str) == str)
    ensures !overrun ==> r == if EscapedSize(str) < ansLen then 0 else -1
    ensures !overrun && r == 0 ==> ans[..] == Overlay(old(ans[..]), off, Escaped(str) + "\0")
    ensures ans[..off] == old(ans[..off]) && ans[off + ansLen..] == old(ans[off + ansLen..])
  {
    EscapedIs(str);
    QuotedUnlessPlain(str);
    hide MustQuote, PlainWord, Quoted, Overlay, EscapedSize;
    ghost var was := ans[..];
    var quoting := NeedQuote(str);
    overrun := quoting && ansLen == 0;
    if overrun {
      return -1, true;
    }
    if quoting {
      r := Quote(str, ans, off, ansLen);
      OverlayFrame(was, off, if r == 0 then Quoted(str) + "\0" else Quoted(str)[..ansLen - 1], ansLen);
      return;
    }
    if |str| < ansLen {
      OverlayFrame(was, off, str + "\0", ansLen);
    }
    if |str| >= ansLen {
      return -1, false;
    }
    r := CopyString(str, ans, off);
  }

  /** strcpy. */
  method CopyString(str: string, ans: array<char>, off: nat) returns (r: int)
    requires off + |str| < ans.Length
    modifies ans
    ensures r == 0 && ans[..] == Overlay(old(ans[..]), off, str + "\0")
  {
    forall i | 0 <= i < |str| {
      ans[off + i] := str[i];
    }
    ans[off + |str|] := '\0';
    return 0;
  }

  // ---- The whole argument list ----

  /** The loop of st_escape_args gives up after `j` words, for want of room for a blank and more. */
  predicate StopsAfter(args: seq<string>, j: nat, ansLen: nat) {
    1 <= j <= |args| && ansLen - 1 <= |Joined(args[..j])| <= ansLen
  }

  /** The words up to `j` without the last blank. */
  function Unfinished(args: seq<string>, j: nat): string
    requires 1 <= j <= |args|
  {
    Joined(args[..j - 1]) + Escaped(args[j - 1])
  }

  lemma JoinedStep(args: seq<string>, i: nat)
    requires i < |args|
    ensures Joined(args[..i + 1]) == Unfinished(args, i + 1) + " "
  {
    JoinedSnoc(args[..i], args[i]);
    assert args[..i + 1] == args[..i] + [args[i]];
  }

  lemma {:induction false} JoinedGrows(args: seq<string>, i: nat, j: nat)
    requires i <= j <= |args|
    ensures |Joined(args[..i])| + 2 * (j - i) <= |Joined(args[..j])|
  {
    hide Joined, Escaped;
    if i < j {
      JoinedGrows(args, i, j - 1);
      JoinedStep(args, j - 1);
      EscapedNotEmpty(args[j - 1]);
    }
  }

  lemma EscapedNotEmpty(s: string)
    ensures |Escaped(s)| >= 1
  {
  }

  ghost predicate AllNoNul(args: seq<string>) {
    forall i :: 0 <= i < |args| ==> NoNul(args[i])
  }

  lemma {:induction false} JoinedNoNul(args: seq<string>)
    requires AllNoNul(args)
    ensures NoNul(Joined(args))
  {
    if args != [] {
      EscapedNoNul(args[0]);
      JoinedNoNul(args[1..]);
    }
  }

  lemma UnfinishedNoNul(args: seq<string>, j: nat)
    requires AllNoNul(args) && 1 <= j <= |args|
    ensures NoNul(Unfinished(args, j)) && |Unfinished(args, j)| >= 1
  {
    JoinedNoNul(args[..j - 1]);
    EscapedNoNul(args[j - 1]);
  }

  /** The loop has put `i` words with their blanks, and goes on. */
  ghost predicate Room(args: seq<string>, i: nat, ansLen: nat) {
    i <= |args| && (i > 0 ==> |Joined(args[..i])| + 2 <= ansLen)
  }

  /** Having room for `i` words and none for the next, or none left, settles where the loop stops. */
  lemma NoStop(args: seq<string>, i: nat, ansLen: nat)
    requires Room(args, i, ansLen)
    requires i < |args| ==> |Joined(args[..i + 1])| > ansLen
    ensures forall j :: !StopsAfter(args, j, ansLen)
  {
    hide Joined;
    forall j | 1 <= j <= |args|
      ensures !StopsAfter(args, j, ansLen)
    {
      if j <= i {
        JoinedGrows(args, j, i);
      } else {
        JoinedGrows(args, i + 1, j);
      }
    }
  }

  lemma OnlyStop(args: seq<string>, i: nat, ansLen: nat)
    requires i < |args| && Room(args, i, ansLen)
    requires ansLen - 1 <= |Joined(args[..i + 1])| <= ansLen
    ensures forall j :: StopsAfter(args, j, ansLen) <==> j == i + 1
  {
    hide Joined;
    forall j: nat
      ensures StopsAfter(args, j, ansLen) <==> j == i + 1
    {
      if 1 <= j <= i {
        JoinedGrows(args, j, i);
      } else if i + 1 < j <= |args| {
        JoinedGrows(args, i + 1, j);
      }
    }
  }

  /** What a full line carries behind the words: old bytes of the buffer. */
  ghost function Leftover(args: seq<string>, was: string, ansLen: nat): string
    requires 1 <= ansLen <= |was| && (args == [] || |Joined(args)| + 2 <= ansLen)
  {
    assert args == [] ==> Joined(args) == "";
    CString(was[0 := '\0'][|Joined(args)|..ansLen - 1])
  }

  /** The C string a full loop leaves: the words, then the old contents behind them. */
  ghost function FullLine(args: seq<string>, was: string, ansLen: nat): string
    requires 1 <= ansLen <= |was| && (args == [] || |Joined(args)| + 2 <= ansLen)
  {
    Joined(args) + Leftover(args, was, ansLen)
  }

  lemma FullLineIsCString(args: seq<string>, was: string, ansLen: nat, now: string)
    requires 1 <= ansLen <= |was| && (args == [] || |Joined(args)| + 2 <= ansLen)
    requires AllNoNul(args)
    requires now == Overlay(was[0 := '\0'], 0, Joined(args))[ansLen - 1 := '\0']
    ensures CString(now) == FullLine(args, was, ansLen)
  {
    var j := Joined(args);
    JoinedNoNul(args);
    hide Joined, AllNoNul;
    LineIsCString(was[0 := '\0'], j, ansLen - 1, now);
  }

  lemma LineIsCString(start: string, text: string, last: nat, now: string)
    requires |text| <= last < |start| && NoNul(text)
    requires now == Overlay(start, 0, text)[last := '\0']
    ensures CString(now) == text + CString(start[|text|..last])
  {
    hide CString;
    var g := CString(start[|text|..last]);
    var n := |text| + |g|;
    assert Overlay(start, 0, text) == text + start[|text|..];
    hide Overlay;
    assert start[|text|..last] == start[|text|..][..last - |text|];
    assert now[|text|..last] == start[|text|..last];
    assert now[|text|..last][..|g|] == g && now[|text|..last][..|g|] == now[|text|..n];
    assert now[..n] == now[..|text|] + now[|text|..n] == text + g;
    if n < last {
      assert now[n] == now[|text|..last][|g|] == '\0';
    }
    CStringUnique(now, n);
  }

  lemma WordThenNul(was: string, text: string, now: string)
    requires |text| < |was| && NoNul(text)
    requires now == Overlay(was, 0, text + "\0")
    ensures CString(now) == text
  {
    assert now[..|text|] == text && now[|text|] == '\0';
    CStringUnique(now, |text|);
  }

  lemma WordThenNulKept(was: string, text: string, now: string, k: nat)
    requires |text| <= k < |was| && NoNul(text)
    requires now == Overlay(was, 0, text + "\0")
    ensures CString(now[k := '\0']) == text
  {
    assert now[k := '\0'][..|text|] == text && now[k := '\0'][|text|] == '\0';
    CStringUnique(now[k := '\0'], |text|);
  }

  /**
   * st_escape_args. With room for every word and its blank, and two bytes more: the words, followed
   * by whatever string the buffer held behind them. With room up to the last blank or the NUL only
   * after `j` words: those words, and 0 even when words are left. Otherwise -1. A buffer of length 0 is
   * written to all the same; the model stops there.
   */
  method EscapeArgs(args: seq<string>, ans: array<char>, ansLen: nat) returns (r: int, overrun: bool)
    requires AllNoNul(args) && ansLen <= ans.Length && ansLen <= SIZE_MAX
    modifies ans
    ensures overrun <==> ansLen == 0
    ensures !overrun ==> LinePut(args, old(ans[..]), ansLen, ans[..], r)
  {
    if ansLen == 0 {
      return -1, true;
    }
    r := EscapeWords(args, ans, ansLen);
    overrun := false;
  }

  ghost predicate LinePut(args: seq<string>, was: string, ansLen: nat, now: string, r: int)
    requires 1 <= ansLen <= |was| == |now|
  {
    && now[ansLen - 1] == '\0' && now[ansLen..] == was[ansLen..]
    && (args == [] || |Joined(args)| + 2 <= ansLen ==> r == 0 && CString(now) == FullLine(args, was, ansLen))
    && (forall j :: StopsAfter(args, j, ansLen) ==> r == 0 && CString(now) == Unfinished(args, j))
    && (|Joined(args)| > ansLen && (forall j :: !StopsAfter(args, j, ansLen)) ==> r == -1)
  }

  /** The same in a buffer that is not empty. */
  method EscapeWords(args: seq<string>, ans: array<char>, ansLen: nat) returns (r: int)
    requires AllNoNul(args) && 1 <= ansLen <= ans.Length && ansLen <= SIZE_MAX
    modifies ans
    ensures LinePut(args, old(ans[..]), ansLen, ans[..], r)
  {
    hide Joined, Escaped, CString, Overlay, Unfinished, AllNoNul, NoNul, LinePut, StopsAfter, FullLine;
    ghost var was := ans[..];
    ans[0] := '\0';
    ghost var start := ans[..];
    assert start == was[0 := '\0'];
    var len: nat := 0;
    var i: nat := 0;
    NoWords(args, start);
    while i < |args|
      invariant Room(args, i, ansLen) && len == |Joined(args[..i])| && len < ansLen
      invariant ans[..] == Overlay(start, 0, Joined(args[..i]))
      invariant ans[ansLen..] == old(ans[ansLen..])
    {
      ghost var before := Joined(args[..i]);
      JoinedStep(args, i);
      assert |Joined(args[..i + 1])| == len + |Escaped(args[i])| + 1 by { UnfinishedLength(args, i + 1); }
      NoNulAt(args, i);
      var e, _ := EscapeOne(args[i], ans, len, ansLen - len);
      if e < 0 {
        ans[ansLen - 1] := '\0';
        NoRoomForNext(args, i, was, ansLen, ans[..]);
        return -1;
      }
      WordPut(args, i, start, ans[..]);
      UnfinishedNoNul(args, i + 1);
      WordThenNul(start, Unfinished(args, i + 1), ans[..]);
      len := |CString(ans[..])|;
      i := i + 1;
      if len >= if ansLen >= 2 then ansLen - 2 else SIZE_MAX {
        WordThenNulKept(start, Unfinished(args, i), ans[..], ansLen - 1);
        ans[ansLen - 1] := '\0';
        StoppedBehind(args, i - 1, was, ansLen, ans[..]);
        return 0;
      }
      BlankPut(args, i, start, ans[..]);
      ans[len] := ' ';
      len := len + 1;
    }
    assert args[..i] == args;
    FullLineIsCString(args, was, ansLen, ans[..][ansLen - 1 := '\0']);
    ans[ansLen - 1] := '\0';
    RoomForAll(args, was, ansLen, ans[..]);
    return 0;
  }

  lemma NoRoomForNext(args: seq<string>, i: nat, was: string, ansLen: nat, now: string)
    requires 1 <= ansLen <= |was| == |now| && now[ansLen - 1] == '\0' && now[ansLen..] == was[ansLen..]
    requires i < |args| && Room(args, i, ansLen) && |Joined(args[..i + 1])| > ansLen
    ensures LinePut(args, was, ansLen, now, -1)
  {
    hide Joined, StopsAfter;
    NoStop(args, i, ansLen);
    JoinedGrows(args, i + 1, |args|);
    assert args[..|args|] == args;
  }

  lemma StoppedBehind(args: seq<string>, i: nat, was: string, ansLen: nat, now: string)
    requires 1 <= ansLen <= |was| == |now| && now[ansLen - 1] == '\0' && now[ansLen..] == was[ansLen..]
    requires i < |args| && Room(args, i, ansLen) && ansLen - 1 <= |Joined(args[..i + 1])| <= ansLen
    requires CString(now) == Unfinished(args, i + 1)
    ensures LinePut(args, was, ansLen, now, 0)
  {
    hide Joined, Unfinished;
    OnlyStop(args, i, ansLen);
    assert StopsAfter(args, i + 1, ansLen);
    JoinedGrows(args, i + 1, |args|);
    assert args[..|args|] == args;
  }

  lemma RoomForAll(args: seq<string>, was: string, ansLen: nat, now: string)
    requires 1 <= ansLen <= |was| == |now| && now[ansLen - 1] == '\0' && now[ansLen..] == was[ansLen..]
    requires args == [] || |Joined(args)| + 2 <= ansLen
    requires CString(now) == FullLine(args, was, ansLen)
    ensures LinePut(args, was, ansLen, now, 0)
  {
    hide Joined, FullLine, StopsAfter;
    assert args[..|args|] == args;
    NoStop(args, |args|, ansLen);
    if args == [] {
      NothingJoined();
    }
  }

  lemma NoWords(args: seq<string>, start: string)
    ensures Joined(args[..0]) == "" && Overlay(start, 0, Joined(args[..0])) == start
  {
  }

  lemma NoNulAt(args: seq<string>, i: nat)
    requires AllNoNul(args) && i < |args|
    ensures NoNul(args[i])
  {
  }

  lemma UnfinishedLength(args: seq<string>, j: nat)
    requires 1 <= j <= |args|
    ensures |Unfinished(args, j)| == |Joined(args[..j - 1])| + |Escaped(args[j - 1])|
  {
  }

  lemma WordPut(args: seq<string>, i: nat, start: string, now: string)
    requires i < |args| && |Joined(args[..i])| + |Escaped(args[i])| + 1 <= |start|
    requires now == Overlay(Overlay(start, 0, Joined(args[..i])), |Joined(args[..i])|, Escaped(args[i]) + "\0")
    ensures |Unfinished(args, i + 1)| < |start|
    ensures now == Overlay(start, 0, Unfinished(args, i + 1) + "\0")
  {
    hide Joined, Escaped, Overlay;
    OverlayNext(start, 0, Joined(args[..i]), Escaped(args[i]) + "\0");
    assert Joined(args[..i]) + (Escaped(args[i]) + "\0") == Unfinished(args, i + 1) + "\0";
  }

  lemma BlankPut(args: seq<string>, j: nat, start: string, now: string)
    requires 1 <= j <= |args| && |Unfinished(args, j)| < |start|
    requires now == Overlay(start, 0, Unfinished(args, j) + "\0")
    ensures |Joined(args[..j])| == |Unfinished(args, j)| + 1
    ensures now[|Unfinished(args, j)| := ' '] == Overlay(start, 0, Joined(args[..j]))
  {
    hide Joined, Overlay, Unfinished;
    JoinedStep(args, j - 1);
    OverlayLast(start, 0, Unfinished(args, j), '\0', ' ');
  }

  // ---- Reading back ----

  /** A full line reads back as the arguments exactly when the old bytes behind it hold no word. */
  lemma FullLineReadsBackIff(args: seq<string>, was: string, ansLen: nat)
    requires 1 <= ansLen <= |was| && (args == [] || |Joined(args)| + 2 <= ansLen)
    ensures Split(FullLine(args, was, ansLen), false) == Some(args) <==> IsWordless(Leftover(args, was, ansLen))
  {
    hide Joined, Scan, CString, IsWordless;
    var g := Leftover(args, was, ansLen);
    SplitJoined(args, g, false);
    WordlessIffNoWords(g);
    if Split(g, false).Some? {
      assert |args + Split(g, false).value| == |args| + |Split(g, false).value|;
      assert args + [] == args;
    }
  }

  lemma UnfinishedReadsBack(args: seq<string>, j: nat)
    requires 1 <= j <= |args|
    ensures Split(Unfinished(args, j), false) == Some(args[..j])
  {
    hide Joined, Scan, Escaped;
    SplitUnfinished(args[..j]);
    JoinedStep(args, j - 1);
    assert (Unfinished(args, j) + " ")[..|Unfinished(args, j)|] == Unfinished(args, j);
  }

  /** Over a zeroed buffer nothing is left over. */
  lemma ZeroedLeavesNothing(args: seq<string>, was: string, ansLen: nat)
    requires 1 <= ansLen <= |was| && (args == [] || |Joined(args)| + 2 <= ansLen)
    requires forall k :: 0 <= k < |was| ==> was[k] == '\0'
    ensures IsWordless(Leftover(args, was, ansLen))
  {
    hide IsBlank;
    NothingJoined();
    var tail := was[0 := '\0'][|Joined(args)|..ansLen - 1];
    hide Joined;
    assert tail != "" ==> tail[0] == '\0';
  }

  /**
   * Into a zeroed buffer: the words come back exactly when the buffer has a byte for each
   * escaped word and its separator; when it has not, either -1, or 0 with the words cut short.
   */
  method EscapeThenSplit(args: seq<string>, ans: array<char>)
    returns (r: int, overrun: bool, words: Option<seq<string>>)
    requires AllNoNul(args) && ans.Length <= SIZE_MAX
    requires forall k :: 0 <= k < ans.Length ==> ans[k] == '\0'
    modifies ans
    ensures overrun <==> ans.Length == 0
    ensures !overrun && |Joined(args)| <= ans.Length ==> r == 0 && words == Some(args)
    ensures !overrun && |Joined(args)| > ans.Length ==>
              r == -1 || (r == 0 && exists j: nat ::
                            StopsAfter(args, j, ans.Length) && j < |args| && words == Some(args[..j]))
  {
    hide Joined, Scan, CString, IsWordless, FullLine, Leftover, Unfinished;
    ghost var was := ans[..];
    r, overrun := EscapeArgs(args, ans, ans.Length);
    if overrun {
      return r, overrun, None;
    }
    words := Split(CString(ans[..]), false);
    assert args[..|args|] == args;
    if args == [] || |Joined(args)| + 2 <= ans.Length {
      ZeroedLeavesNothing(args, was, ans.Length);
      FullLineReadsBackIff(args, was, ans.Length);
      assert args == [] ==> |Joined(args)| == 0 by { NothingJoined(); }
    } else if |Joined(args)| <= ans.Length {
      assert StopsAfter(args, |args|, ans.Length);
      UnfinishedReadsBack(args, |args|);
    } else if j: nat :| StopsAfter(args, j, ans.Length) {
      UnfinishedReadsBack(args, j);
    }
  }

  lemma NothingJoined()
    ensures Joined([]) == ""
  {
  }

  /** Words can be lost without an error: three bytes hold "a" of the arguments a and b. */
  lemma SilentLoss()
    ensures StopsAfter(["a", "b"], 1, 3) && Unfinished(["a", "b"], 1) == "a"
    ensures |Joined(["a", "b"])| > 3
  {
    var args := ["a", "b"];
    assert !MustQuote("a") && !MustQuote("b");
    assert args[..1] == ["a"] && args[..0] == [];
    assert args[1..] == ["b"] && ["a"][1..] == [] && ["b"][1..] == [];
    assert Joined(["a"]) == "a" + " " + Joined([]);
    assert Joined(["b"]) == "b" + " " + Joined([]);
    assert Joined(args) == "a" + " " + Joined(["b"]);
  }

  /** Old bytes behind the words can become a word: "a" printed into a buffer of x's. */
  lemma OldBytesBecomeAWord()
    ensures Split(FullLine(["a"], "xxxxx", 5), false) == Some(["a", "xx"])
  {
    hide Split, Joined;
    OldBytesLeft();
    SplitJoined(["a"], "xx", false);
    OneBareWord();
    assert ["a"] + ["xx"] == ["a", "xx"];
  }

  lemma OldBytesLeft()
    ensures |Joined(["a"])| == 2 && FullLine(["a"], "xxxxx", 5) == Joined(["a"]) + "xx"
  {
    assert !MustQuote("a");
    assert ["a"][1..] == [];
    assert Joined(["a"]) == "a" + " " + Joined([]);
    var start := "xxxxx"[0 := '\0'];
    assert start[2..4] == "xx";
    CStringUnique("xx", 2);
  }

  lemma OneBareWord()
    ensures Split("xx", false) == Some(["xx"])
  {
    ScanLiteral("xx", None, "", false);
    assert "xx" + "" == "xx" && WordSoFar(None) + "xx" == "xx";
  }
}
