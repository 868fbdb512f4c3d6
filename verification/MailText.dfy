/**
 The line-level text functions the mail servers share. `blank` is the table of white-space characters; ASCII case
 folding is written out.
 */
module MailText {
  import opened Wrappers

  type Table = char -> bool

  function UpperChar(c: char): char {
    if 'a' <= c <= 'z' then c - 'a' + 'A' else c
  }

  function LowerChar(c: char): char {
    if 'A' <= c <= 'Z' then c - 'A' + 'a' else c
  }

  function Upper(s: string): (r: string)
    ensures |r| == |s|
  {
    seq(|s|, i requires 0 <= i < |s| => UpperChar(s[i]))
  }

  function Lower(s: string): (r: string)
    ensures |r| == |s|
  {
    seq(|s|, i requires 0 <= i < |s| => LowerChar(s[i]))
  }

  function TrimStart(s: string, blank: Table): string {
    if s != "" && blank(s[0]) then TrimStart(s[1..], blank) else s
  }

  function TrimEnd(s: string, blank: Table): string {
    if s != "" && blank(s[|s| - 1]) then TrimEnd(s[..|s| - 1], blank) else s
  }

  function Trim(s: string, blank: Table): string {
    TrimEnd(TrimStart(s, blank), blank)
  }

  /** The words of a text, split at white space. */
  function Words(s: string, blank: Table): seq<string>
    decreases |s|
  {
    var t := TrimStart(s, blank);
    if t == "" then []
    else
      TrimStartIsShort(s, blank);
      var n := WordLength(t, blank);
      [t[..n]] + Words(t[n..], blank)
  }

  function WordLength(s: string, blank: Table): (n: nat)
    requires s != "" && !blank(s[0])
    ensures 0 < n <= |s|
  {
    if |s| == 1 || blank(s[1]) then 1 else 1 + WordLength(s[1..], blank)
  }

  lemma {:induction false} TrimStartIsShort(s: string, blank: Table)
    ensures |TrimStart(s, blank)| <= |s|
    ensures TrimStart(s, blank) != "" ==> !blank(TrimStart(s, blank)[0])
  {
    if s != "" && blank(s[0]) {
      TrimStartIsShort(s[1..], blank);
    }
  }

  predicate AllBlank(s: string, blank: Table) {
    forall i :: 0 <= i < |s| ==> blank(s[i])
  }

  predicate NoneBlank(s: string, blank: Table) {
    forall i :: 0 <= i < |s| ==> !blank(s[i])
  }

  lemma {:induction false} TrimStartSkips(before: string, s: string, blank: Table)
    requires AllBlank(before, blank)
    ensures TrimStart(before + s, blank) == TrimStart(s, blank)
  {
    if before == "" {
      assert before + s == s;
    } else {
      TrimStartSkips(before[1..], s, blank);
      assert (before + s)[1..] == before[1..] + s;
    }
  }

  lemma {:induction false} TrimEndSkips(s: string, after: string, blank: Table)
    requires AllBlank(after, blank)
    ensures TrimEnd(s + after, blank) == TrimEnd(s, blank)
  {
    if after == "" {
      assert s + after == s;
    } else {
      TrimEndSkips(s, after[..|after| - 1], blank);
      assert (s + after)[..|s + after| - 1] == s + after[..|after| - 1];
    }
  }

  /** Trimming takes off the white space around a text and nothing of the text. */
  lemma TrimReads(before: string, text: string, after: string, blank: Table)
    requires AllBlank(before, blank) && AllBlank(after, blank)
    requires text != "" ==> !blank(text[0]) && !blank(text[|text| - 1])
    ensures Trim(before + text + after, blank) == text
  {
    if text == "" {
      assert before + text + after == (before + after) + "";
      TrimStartSkips(before + after, "", blank);
    } else {
      assert before + text + after == before + (text + after);
      TrimStartSkips(before, text + after, blank);
      TrimEndSkips(text, after, blank);
    }
  }

  lemma {:induction false} WordEnds(word: string, rest: string, blank: Table)
    requires word != "" && NoneBlank(word, blank) && (rest == "" || blank(rest[0]))
    ensures WordLength(word + rest, blank) == |word|
  {
    if |word| > 1 {
      WordEnds(word[1..], rest, blank);
      assert (word + rest)[1..] == word[1..] + rest;
    }
  }

  /** Words are what stands between white space, however much of it there is. */
  lemma WordsRead(before: string, word: string, rest: string, blank: Table)
    requires AllBlank(before, blank)
    requires word != "" && NoneBlank(word, blank) && (rest == "" || blank(rest[0]))
    ensures Words(before, blank) == []
    ensures Words(before + word + rest, blank) == [word] + Words(rest, blank)
  {
    assert before + "" == before;
    TrimStartSkips(before, "", blank);
    assert before + word + rest == before + (word + rest);
    TrimStartSkips(before, word + rest, blank);
    WordEnds(word, rest, blank);
    assert (word + rest)[..|word|] == word && (word + rest)[|word|..] == rest;
  }

  function FindSpace(s: string): (r: Option<nat>)
    ensures r.Some? ==> r.value < |s|
  {
    if s == "" then None
    else if s[0] == ' ' then Some(0)
    else
      var r := FindSpace(s[1..]);
      if r.Some? then Some(r.value + 1) else None
  }

  /** The word before the first space, and the trimmed text after it. */
  function SplitCommand(line: string, blank: Table): (string, string) {
    match FindSpace(line)
    case None => (line, "")
    case Some(k) => (line[..k], Trim(line[k + 1..], blank))
  }

  lemma {:induction false} TrimEndKeepsText(s: string, blank: Table)
    requires s != "" && !blank(s[0])
    ensures TrimEnd(s, blank) != ""
  {
    if |s| > 1 && blank(s[|s| - 1]) {
      TrimEndKeepsText(s[..|s| - 1], blank);
    }
  }

  lemma {:induction false} FindsFirstSpace(word: string, rest: string)
    requires ' ' !in word
    ensures FindSpace(word).None?
    ensures FindSpace(word + " " + rest) == Some(|word|)
  {
    if word != "" {
      FindsFirstSpace(word[1..], rest);
      assert (word + " " + rest)[1..] == word[1..] + " " + rest;
    } else {
      assert word + " " + rest == " " + rest;
    }
  }

  /** A command word is read as itself, alone or before its arguments. */
  lemma CommandReads(word: string, args: string, blank: Table)
    requires word != "" && ' ' !in word && !blank(word[0])
    ensures Trim(word, blank) != "" && SplitCommand(word, blank) == (word, "")
    ensures Trim(word + " " + args, blank) != ""
    ensures SplitCommand(word + " " + args, blank) == (word, Trim(args, blank))
  {
    hide FindSpace;
    var line := word + " " + args;
    FindsFirstSpace(word, args);
    TrimEndKeepsText(word, blank);
    TrimEndKeepsText(line, blank);
    assert line[..|word|] == word && line[|word| + 1..] == args;
  }

  /** The command word of a line that is neither blank nor answered by a custom response; nothing for the others. */
  function CommandWord(line: string, blank: Table, custom: (string, string) -> Option<string>): string {
    var word := Upper(SplitCommand(line, blank).0);
    if Trim(line, blank) == "" || custom(word, line).Some? then "" else word
  }

  /** Case does not matter for command words. */
  lemma UpperFoldsCase(s: string)
    ensures Upper(Lower(s)) == Upper(s)
    ensures forall i :: 0 <= i < |s| && !('a' <= s[i] <= 'z') ==> Upper(s)[i] == s[i]
    ensures forall i :: 0 <= i < |s| && 'a' <= s[i] <= 'z' ==> Upper(s)[i] == s[i] - 'a' + 'A'
    ensures forall i :: 0 <= i < |s| && !('A' <= s[i] <= 'Z') ==> Lower(s)[i] == s[i]
    ensures forall i :: 0 <= i < |s| && 'A' <= s[i] <= 'Z' ==> Lower(s)[i] == s[i] - 'A' + 'a'
  {
  }

  function TextOr(text: Option<string>): string {
    if text.Some? then text.value else ""
  }

  function WordOr(words: seq<string>, k: nat): string {
    if k < |words| then words[k] else ""
  }

  predicate StartsAt(s: string, i: nat, word: string) {
    i + |word| <= |s| && s[i..i + |word|] == word
  }

  predicate Contains(s: string, word: string) {
    exists i :: 0 <= i <= |s| && StartsAt(s, i, word)
  }

  predicate CredentialsMatch(credentials: seq<(string, string)>, username: string, password: string) {
    (username, password) in credentials
  }
}
