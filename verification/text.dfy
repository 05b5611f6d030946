/** The Python `str` operations the scrapers rely on, restricted to ASCII:
    `strip`, `startswith`, `replace` of one character, `title` and the
    no-argument `split`. */
module Text {

  /** `str.isspace()` on ASCII: space, tab, LF, VT, FF, CR and the
      separators 0x1C-0x1F. */
  predicate IsSpace(c: char) {
    c == ' ' || (9 <= c as int <= 13) || (28 <= c as int <= 31)
  }

  predicate IsUpper(c: char) { 'A' <= c <= 'Z' }

  predicate IsLower(c: char) { 'a' <= c <= 'z' }

  /** The cased characters of the model: the ASCII letters. */
  predicate IsLetter(c: char) { IsUpper(c) || IsLower(c) }

  function Upper(c: char): (r: char)
    ensures IsLetter(r) == IsLetter(c)
    ensures !IsLower(r)
    ensures !IsLower(c) ==> r == c
    ensures IsLower(c) ==> r as int == c as int - 32
  {
    if IsLower(c) then (c as int - 32) as char else c
  }

  function Lower(c: char): (r: char)
    ensures IsLetter(r) == IsLetter(c)
    ensures !IsUpper(r)
    ensures !IsUpper(c) ==> r == c
    ensures IsUpper(c) ==> r as int == c as int + 32
  {
    if IsUpper(c) then (c as int + 32) as char else c
  }

  predicate StartsWith(s: string, prefix: string) {
    |prefix| <= |s| && s[..|prefix|] == prefix
  }

  predicate EndsWith(s: string, suffix: string) {
    |suffix| <= |s| && s[|s| - |suffix|..] == suffix
  }

  /** `s.replace(a, b)` for single characters: every occurrence of `a` becomes `b`. */
  function Replace(s: string, a: char, b: char): (r: string)
    ensures |r| == |s|
    ensures forall i :: 0 <= i < |s| ==> r[i] == (if s[i] == a then b else s[i])
  {
    seq(|s|, i requires 0 <= i < |s| => if s[i] == a then b else s[i])
  }

  // ---------------------------------------------------------------------------
  // strip

  /** `s.lstrip()`: drops the leading whitespace. */
  function StripStart(s: string): (r: string)
    ensures |r| <= |s| && r == s[|s| - |r|..]
    ensures forall i :: 0 <= i < |s| - |r| ==> IsSpace(s[i])
    ensures |r| > 0 ==> !IsSpace(r[0])
  {
    if |s| > 0 && IsSpace(s[0]) then StripStart(s[1..]) else s
  }

  /** `s.rstrip()`: drops the trailing whitespace. */
  function StripEnd(s: string): (r: string)
    ensures |r| <= |s| && r == s[..|r|]
    ensures forall i :: |r| <= i < |s| ==> IsSpace(s[i])
    ensures |r| > 0 ==> !IsSpace(r[|r| - 1])
  {
    if |s| > 0 && IsSpace(s[|s| - 1]) then StripEnd(s[..|s| - 1]) else s
  }

  /** `r` is the slice of `s` at offset `i` with only whitespace around it. */
  predicate TrimOf(s: string, i: int, r: string) {
    && 0 <= i && i + |r| <= |s|
    && s[i..i + |r|] == r
    && (forall k :: 0 <= k < i ==> IsSpace(s[k]))
    && (forall k :: i + |r| <= k < |s| ==> IsSpace(s[k]))
  }

  /** `s.strip()`: the slice of `s` left once the whitespace at both ends is
      gone; it neither begins nor ends with whitespace. */
  function Strip(s: string): (r: string)
    ensures exists i :: TrimOf(s, i, r)
    ensures |r| > 0 ==> !IsSpace(r[0]) && !IsSpace(r[|r| - 1])
  {
    var a := StripStart(s);
    var r := StripEnd(a);
    assert TrimOf(s, |s| - |a|, r);
    r
  }

  // ---------------------------------------------------------------------------
  // title

  /** Whether the character before position `i` of `s` is cased (a letter). */
  predicate CasedBefore(s: string, i: int)
    requires 0 <= i < |s|
  {
    i > 0 && IsLetter(s[i - 1])
  }

  /** Character `i` of `str.title()`: lowered after a letter, raised
      elsewhere. */
  function TitleChar(s: string, i: int): (c: char)
    requires 0 <= i < |s|
    ensures IsLetter(c) == IsLetter(s[i])
    ensures !IsLetter(s[i]) ==> c == s[i]
    ensures IsLetter(s[i]) ==> (IsUpper(c) <==> !CasedBefore(s, i))
    ensures Lower(c) == Lower(s[i])
  {
    if CasedBefore(s, i) then Lower(s[i]) else Upper(s[i])
  }

  /** `str.title()`: a letter that follows a letter is lowered, every other
      letter is raised, and everything else is kept. */
  function Title(s: string): (r: string)
    ensures |r| == |s|
    ensures forall i :: 0 <= i < |s| ==> IsLetter(r[i]) == IsLetter(s[i])
    ensures forall i :: 0 <= i < |s| && !IsLetter(s[i]) ==> r[i] == s[i]
    ensures forall i :: 0 <= i < |s| && IsLetter(s[i]) ==>
              (IsUpper(r[i]) <==> (i == 0 || !IsLetter(s[i - 1])))
    ensures forall i :: 0 <= i < |s| ==> Lower(r[i]) == Lower(s[i])
  {
    seq(|s|, i requires 0 <= i < |s| => TitleChar(s, i))
  }

  /** Title-casing twice is title-casing once. */
  lemma {:induction false} TitleIdempotent(s: string)
    ensures Title(Title(s)) == Title(s)
  {
    var t := Title(s);
    var tt := Title(t);
    forall i | 0 <= i < |s|
      ensures tt[i] == t[i]
    {
      if IsLetter(s[i]) {
        assert IsLetter(t[i]) && IsLetter(tt[i]);
        assert i > 0 ==> IsLetter(t[i - 1]) == IsLetter(s[i - 1]);
        assert IsUpper(tt[i]) == IsUpper(t[i]);
        assert Lower(tt[i]) == Lower(t[i]);
      }
    }
  }

  /** The slug-to-name transform `slug.replace('-', ' ').title()`. */
  function Display(slug: string): (r: string)
    ensures |r| == |slug|
    ensures forall i :: 0 <= i < |r| ==> r[i] != '-'
    ensures forall i :: 0 <= i < |r| ==> Lower(r[i]) == (if slug[i] == '-' then ' ' else Lower(slug[i]))
  {
    Title(Replace(slug, '-', ' '))
  }

  /** Turning a name that is already a display name into one changes nothing. */
  lemma {:induction false} DisplayIdempotent(slug: string)
    ensures Display(Display(slug)) == Display(slug)
  {
    var d := Display(slug);
    assert Replace(d, '-', ' ') == d;
    TitleIdempotent(Replace(slug, '-', ' '));
  }

  // ---------------------------------------------------------------------------
  // split

  /** A word of `str.split()`: non-empty and free of whitespace. */
  predicate IsWord(w: string) {
    |w| > 0 && forall i :: 0 <= i < |w| ==> !IsSpace(w[i])
  }

  /** Every element of `words` is a word. */
  predicate Words(words: seq<string>) {
    |words| == 0 || (IsWord(words[0]) && Words(words[1..]))
  }

  /** The length of the run of non-whitespace characters that begins `s`. */
  function WordLength(s: string): (n: nat)
    ensures n <= |s|
    ensures forall i :: 0 <= i < n ==> !IsSpace(s[i])
    ensures n < |s| ==> IsSpace(s[n])
  {
    if |s| == 0 || IsSpace(s[0]) then 0 else 1 + WordLength(s[1..])
  }

  /** `s.split()` with no separator: the maximal runs of non-whitespace
      characters, in order. */
  function Split(s: string): (words: seq<string>)
    ensures Words(words)
    decreases |s|
  {
    var t := StripStart(s);
    if |t| == 0 then []
    else
      var n := WordLength(t);
      var rest := Split(t[n..]);
      assert ([t[..n]] + rest)[1..] == rest;
      [t[..n]] + rest
  }

  /** `" ".join(words)`. */
  function JoinSpaced(words: seq<string>): string {
    if |words| == 0 then ""
    else if |words| == 1 then words[0]
    else words[0] + " " + JoinSpaced(words[1..])
  }

  lemma {:induction false} WordLengthOfWord(w: string, rest: string)
    requires IsWord(w)
    requires |rest| == 0 || IsSpace(rest[0])
    ensures WordLength(w + rest) == |w|
    decreases |w|
  {
    if |w| > 1 {
      assert (w + rest)[1..] == w[1..] + rest;
      WordLengthOfWord(w[1..], rest);
    } else {
      assert (w + rest)[1..] == rest;
    }
  }

  /** A word followed by nothing or by whitespace is the first word of the split. */
  lemma SplitWordThen(w: string, rest: string)
    requires IsWord(w)
    requires |rest| == 0 || IsSpace(rest[0])
    ensures Split(w + rest) == [w] + Split(rest)
  {
    var s := w + rest;
    assert StripStart(s) == s;
    WordLengthOfWord(w, rest);
    assert s[..|w|] == w;
    assert s[|w|..] == rest;
  }

  /** Leading whitespace does not change the split. */
  lemma SplitSkipsLeadingSpace(c: char, s: string)
    requires IsSpace(c)
    ensures Split([c] + s) == Split(s)
  {
    assert ([c] + s)[1..] == s;
    assert StripStart([c] + s) == StripStart(s);
  }

  /** A word, a space and the rest split as the word followed by the split of the rest. */
  lemma SplitWordSpace(w: string, tail: string)
    requires IsWord(w)
    ensures Split(w + " " + tail) == [w] + Split(tail)
  {
    assert w + " " + tail == w + ([' '] + tail);
    SplitWordThen(w, [' '] + tail);
    SplitSkipsLeadingSpace(' ', tail);
  }

  /** A word alone splits as itself. */
  lemma SplitWord(w: string)
    requires IsWord(w)
    ensures Split(w) == [w]
  {
    SplitWordThen(w, "");
    assert w + "" == w;
  }

  /** One step of the round trip: a word put in front of a join that splits back
      is split off again. */
  lemma SplitJoinStep(words: seq<string>)
    requires |words| > 1 && IsWord(words[0])
    requires Split(JoinSpaced(words[1..])) == words[1..]
    ensures Split(JoinSpaced(words)) == words
  {
    SplitWordSpace(words[0], JoinSpaced(words[1..]));
    assert [words[0]] + words[1..] == words;
  }

  /** Splitting a single-space join of words gives the words back. */
  lemma {:induction false} SplitJoinSpaced(words: seq<string>)
    requires Words(words)
    ensures Split(JoinSpaced(words)) == words
    decreases |words|
  {
    if |words| == 1 {
      SplitWord(words[0]);
    } else if |words| > 1 {
      SplitJoinSpaced(words[1..]);
      SplitJoinStep(words);
    }
  }

  /** The number of positions of `s` where a word begins; `afterSpace` says
      whether the character before `s` was whitespace (or absent). */
  function WordStarts(s: string, afterSpace: bool): nat {
    if |s| == 0 then 0
    else (if afterSpace && !IsSpace(s[0]) then 1 else 0) + WordStarts(s[1..], IsSpace(s[0]))
  }

  lemma {:induction false} WordStartsSkipsSpaces(s: string)
    ensures WordStarts(s, true) == WordStarts(StripStart(s), true)
    decreases |s|
  {
    if |s| > 0 && IsSpace(s[0]) {
      WordStartsSkipsSpaces(s[1..]);
    }
  }

  lemma {:induction false} WordStartsInsideWord(s: string)
    ensures WordStarts(s, false) == WordStarts(s[WordLength(s)..], false)
    decreases |s|
  {
    if |s| > 0 && !IsSpace(s[0]) {
      WordStartsInsideWord(s[1..]);
      assert s[1..][WordLength(s[1..])..] == s[WordLength(s)..];
    }
  }

  /** A word that begins `t` accounts for one word start; the count goes on after it. */
  lemma WordStartsAfterWord(t: string)
    requires |t| > 0 && !IsSpace(t[0])
    ensures WordStarts(t, true) == 1 + WordStarts(t[WordLength(t)..], true)
  {
    var n := WordLength(t);
    WordStartsInsideWord(t[1..]);
    assert t[1..][WordLength(t[1..])..] == t[n..];
    assert WordStarts(t[n..], false) == WordStarts(t[n..], true);
  }

  /** `len(s.split())` counts the positions where a word begins. */
  lemma {:induction false} SplitCountsWordStarts(s: string)
    ensures |Split(s)| == WordStarts(s, true)
    decreases |s|
  {
    WordStartsSkipsSpaces(s);
    var t := StripStart(s);
    if |t| > 0 {
      WordStartsAfterWord(t);
      SplitCountsWordStarts(t[WordLength(t)..]);
    }
  }
}
