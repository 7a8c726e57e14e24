/** Character classes and the handful of tokenisers that the regular
    expressions of the reply parsers amount to: line-break removal,
    lower-casing, the bracketed span `\[.*\]`, maximal runs of one character
    class (`\d+`, `[\d\.]+`, `[^ ]+`) and the tag pattern `(\w+ *\w+)+`.
    The character classes are the ASCII ones. */
module Text {
  import opened Wrappers

  predicate IsDigit(c: char) { '0' <= c <= '9' }
  predicate IsUpper(c: char) { 'A' <= c <= 'Z' }
  /** `\w`: letters, digits and the underscore */
  predicate IsWordChar(c: char) { 'a' <= c <= 'z' || IsUpper(c) || IsDigit(c) || c == '_' }
  /** the literal space of ` *` */
  predicate IsSpace(c: char) { c == ' ' }
  /** `[^ ]` */
  predicate IsNotSpace(c: char) { c != ' ' }
  /** `[\d\.]` */
  predicate IsDigitOrDot(c: char) { IsDigit(c) || c == '.' }
  /** `[\r\n]` */
  predicate IsLineBreak(c: char) { c == '\r' || c == '\n' }

  predicate NoUpper(s: string) { forall i :: 0 <= i < |s| ==> !IsUpper(s[i]) }
  predicate NoLineBreak(s: string) { forall i :: 0 <= i < |s| ==> !IsLineBreak(s[i]) }

  function LowerChar(c: char): (d: char)
    ensures !IsUpper(d)
    ensures !IsUpper(c) ==> d == c
    ensures IsUpper(c) ==> 'a' <= d <= 'z' && d as int - 'a' as int == c as int - 'A' as int
  {
    if IsUpper(c) then (c as int + 32) as char else c
  }

  /** `str.lower()`: every upper-case letter becomes its lower-case form,
      every other character is kept in place. */
  function Lower(s: string): (r: string)
    ensures |r| == |s| && NoUpper(r)
    ensures forall i :: 0 <= i < |s| ==> r[i] == LowerChar(s[i])
  {
    if s == [] then [] else [LowerChar(s[0])] + Lower(s[1..])
  }

  /** `re.sub(r'[\r\n]', '', s)`: deletes every CR and LF and keeps every
      other character, in order. */
  function StripLineBreaks(s: string): (r: string)
    ensures NoLineBreak(r) && |r| <= |s|
    ensures NoLineBreak(s) ==> r == s
  {
    if s == [] then []
    else (if IsLineBreak(s[0]) then [] else [s[0]]) + StripLineBreaks(s[1..])
  }

  /** Every character other than CR and LF survives as often as it
      occurs. */
  lemma {:induction false} StripLineBreaksKeepsOthers(s: string, c: char)
    requires !IsLineBreak(c)
    ensures multiset(StripLineBreaks(s))[c] == multiset(s)[c]
    decreases |s|
  {
    if s != [] {
      StripLineBreaksKeepsOthers(s[1..], c);
      assert s == [s[0]] + s[1..];
    }
  }

  lemma {:induction false} StripLineBreaksConcat(a: string, b: string)
    ensures StripLineBreaks(a + b) == StripLineBreaks(a) + StripLineBreaks(b)
    decreases |a|
  {
    if a == [] {
      assert a + b == b;
    } else {
      var ab := a + b;
      assert ab[0] == a[0];
      assert ab[1..] == a[1..] + b;
      StripLineBreaksConcat(a[1..], b);
    }
  }

  lemma LowerConcat(a: string, b: string)
    ensures Lower(a + b) == Lower(a) + Lower(b)
  {
  }

  lemma LowerKeeps(s: string)
    requires NoUpper(s)
    ensures Lower(s) == s
  {
  }

  lemma LowerLacks(s: string, c: char)
    requires Lacks(s, c) && !('a' <= c <= 'z')
    ensures Lacks(Lower(s), c)
  {
  }

  lemma {:induction false} StripLineBreaksLacks(s: string, c: char)
    requires Lacks(s, c)
    ensures Lacks(StripLineBreaks(s), c)
  {
    if s != [] {
      StripLineBreaksLacks(s[1..], c);
    }
  }

  lemma {:induction false} StripLineBreaksNoUpper(s: string)
    requires NoUpper(s)
    ensures NoUpper(StripLineBreaks(s))
  {
    if s != [] {
      StripLineBreaksNoUpper(s[1..]);
    }
  }

  lemma LowerFramed(a: string, b: string, c: string)
    requires NoUpper(b)
    ensures Lower(a + b + c) == Lower(a) + b + Lower(c)
  {
    LowerConcat(a + b, c);
    LowerConcat(a, b);
    LowerKeeps(b);
  }

  lemma StripLineBreaksFramed(a: string, b: string, c: string)
    requires NoLineBreak(b)
    ensures StripLineBreaks(a + b + c) == StripLineBreaks(a) + b + StripLineBreaks(c)
  {
    StripLineBreaksConcat(a + b, c);
    StripLineBreaksConcat(a, b);
  }

  lemma OccursAtNoLineBreak(t: string, s: string, k: int)
    requires OccursAt(t, s, k) && NoLineBreak(s)
    ensures NoLineBreak(t)
  {
    assert forall i :: 0 <= i < |t| ==> t[i] == s[k + i];
  }

  /** First position of `c` in `s`, if any. */
  function IndexOf(s: string, c: char): (r: Option<nat>)
    ensures r.Some? ==> r.value < |s| && s[r.value] == c && forall k :: 0 <= k < r.value ==> s[k] != c
    ensures r.None? ==> forall k :: 0 <= k < |s| ==> s[k] != c
  {
    if s == [] then None
    else if s[0] == c then Some(0)
    else match IndexOf(s[1..], c)
      case None => None
      case Some(i) => Some(i + 1)
  }

  /** Last position of `c` in `s`, if any. */
  function LastIndexOf(s: string, c: char): (r: Option<nat>)
    ensures r.Some? ==> r.value < |s| && s[r.value] == c && forall k :: r.value < k < |s| ==> s[k] != c
    ensures r.None? ==> forall k :: 0 <= k < |s| ==> s[k] != c
  {
    if s == [] then None
    else if s[|s| - 1] == c then Some(|s| - 1)
    else LastIndexOf(s[..|s| - 1], c)
  }

  /** A half-open range of positions `[start, end)` of a string. */
  datatype Span = Span(start: nat, end: nat)

  /** `re.search(r'\[.*\]', s)` on a string without line breaks: the match
      runs from the first `[` to the last `]`, and there is none when no `]`
      follows a `[`. */
  function BracketSpan(s: string): (r: Option<Span>)
    ensures r.None? <==> forall i, j :: 0 <= i < j < |s| && s[i] == '[' ==> s[j] != ']'
    ensures r.Some? ==>
      && r.value.start + 2 <= r.value.end <= |s|
      && s[r.value.start] == '[' && s[r.value.end - 1] == ']'
      && (forall k :: 0 <= k < r.value.start ==> s[k] != '[')
      && (forall k :: r.value.end <= k < |s| ==> s[k] != ']')
  {
    match (IndexOf(s, '['), LastIndexOf(s, ']'))
    case (Some(i), Some(j)) => if i < j then Some(Span(i, j + 1)) else None
    case _ => None
  }

  /** The text of `re.search(r'\[.*\]', s)[0]`, when there is a match. */
  function BracketText(s: string): (r: Option<string>)
    ensures r.None? <==> BracketSpan(s).None?
    ensures r.Some? ==> |r.value| >= 2 && r.value[0] == '[' && r.value[|r.value| - 1] == ']'
    ensures r.Some? ==> r.value == s[BracketSpan(s).value.start..BracketSpan(s).value.end]
    ensures r.Some? ==> OccursAt(r.value, s, BracketSpan(s).value.start)
  {
    match BracketSpan(s)
    case None => None
    case Some(sp) => Some(s[sp.start..sp.end])
  }

  predicate Lacks(s: string, c: char) { forall k :: 0 <= k < |s| ==> s[k] != c }

  /** Prose around one bracketed list does not change the match, as long as
      the prose before it has no `[` and the prose after it no `]`. */
  lemma BracketTextFramed(pre: string, body: string, post: string)
    requires |body| >= 2 && body[0] == '[' && body[|body| - 1] == ']'
    requires Lacks(pre, '[') && Lacks(post, ']')
    ensures BracketText(pre + body + post) == Some(body)
  {
    var s := pre + body + post;
    var i, j := |pre|, |pre| + |body|;
    assert s[i] == '[' && s[j - 1] == ']';
    assert forall k :: 0 <= k < i ==> s[k] == pre[k];
    assert forall k :: j <= k < |s| ==> s[k] == post[k - j];
    var sp := BracketSpan(s).value;
    assert sp.start == i;
    assert sp.end == j;
    assert s[i..j] == body;
  }

  /** `re.match(r'\[.*\]', s)`: the same pattern anchored at the first
      character, so it matches only when `s` starts with `[`; the match then
      ends at the last `]`. */
  function AnchoredBracketText(s: string): (r: Option<string>)
    ensures r.Some? <==> |s| >= 1 && s[0] == '[' && exists j :: 1 <= j < |s| && s[j] == ']'
    ensures r.Some? ==> r == BracketText(s)
  {
    if |s| >= 1 && s[0] == '[' then
      match LastIndexOf(s, ']')
      case Some(j) => if j >= 1 then Some(s[..j + 1]) else None
      case None => None
    else None
  }

  /** A bracketed body at the start is matched whole, whatever follows it
      without a `]`. */
  lemma AnchoredBracketTextFramed(body: string, post: string)
    requires |body| >= 2 && body[0] == '[' && body[|body| - 1] == ']'
    requires Lacks(post, ']')
    ensures AnchoredBracketText(body + post) == Some(body)
  {
    var s := body + post;
    assert s[|body| - 1] == ']';
    assert forall k :: |body| <= k < |s| ==> s[k] == post[k - |body|];
    assert LastIndexOf(s, ']') == Some(|body| - 1);
    assert s[..|body|] == body;
  }

  /** `re.split(r'\.', s)[-1]` for the character `c`: the text after the
      last `c`, or all of `s` when it has none. */
  function AfterLast(s: string, c: char): (r: string)
    ensures Lacks(r, c)
    ensures |r| <= |s| && r == s[|s| - |r|..]
    ensures |r| < |s| ==> s[|s| - |r| - 1] == c
  {
    match LastIndexOf(s, c)
    case None => s
    case Some(i) => s[i + 1..]
  }

  lemma AfterLastOfSuffix(a: string, c: char, b: string)
    requires Lacks(b, c)
    ensures AfterLast(a + [c] + b, c) == b
  {
    var s := a + [c] + b;
    assert s[|a|] == c;
    assert s[|s| - |b|..] == b;
  }

  /** `re.split(c, s)`: the pieces between the occurrences of `c`. */
  function Split(s: string, c: char): (r: seq<string>)
    ensures |r| >= 1 && forall p :: p in r ==> Lacks(p, c)
    decreases |s|
  {
    match IndexOf(s, c)
    case None => [s]
    case Some(i) => [s[..i]] + Split(s[i + 1..], c)
  }

  /** The pieces put back together with `c` between them. */
  function JoinWith(ps: seq<string>, c: char): string
    decreases |ps|
  {
    if |ps| <= 1 then (if ps == [] then [] else ps[0]) else ps[0] + [c] + JoinWith(ps[1..], c)
  }

  /** Splitting loses nothing: joining the pieces gives the string back. */
  lemma {:induction false} SplitJoin(s: string, c: char)
    ensures JoinWith(Split(s, c), c) == s
    decreases |s|
  {
    match IndexOf(s, c)
    case None =>
    case Some(i) =>
      SplitJoin(s[i + 1..], c);
      assert s == s[..i] + [c] + s[i + 1..];
  }

  /** A string with exactly one `c` splits into the two pieces around it. */
  lemma SplitTwo(a: string, c: char, b: string)
    requires Lacks(a, c) && Lacks(b, c)
    ensures Split(a + [c] + b, c) == [a, b]
  {
    var s := a + [c] + b;
    assert s[|a|] == c;
    assert IndexOf(s, c) == Some(|a|);
    assert s[..|a|] == a && s[|a| + 1..] == b;
    assert IndexOf(b, c) == None;
  }

  /** The end of the maximal run of characters satisfying `p` that starts
      at position `i`. */
  function RunEnd(s: string, i: nat, p: char -> bool): (j: nat)
    requires i <= |s|
    ensures i <= j <= |s|
    ensures forall k :: i <= k < j ==> p(s[k])
    ensures j == |s| || !p(s[j])
    decreases |s| - i
  {
    if i == |s| || !p(s[i]) then i else RunEnd(s, i + 1, p)
  }

  lemma RunEndUnique(s: string, i: nat, j: nat, p: char -> bool)
    requires i <= j <= |s|
    requires forall k :: i <= k < j ==> p(s[k])
    requires j == |s| || !p(s[j])
    ensures RunEnd(s, i, p) == j
  {
  }

  /** `re.findall` of `c+` for a character class `c`: the maximal runs of
      characters satisfying `p`, left to right. */
  function Runs(s: string, p: char -> bool): (r: seq<string>)
    ensures forall w :: w in r ==> w != [] && forall k :: 0 <= k < |w| ==> p(w[k])
    decreases |s|
  {
    if s == [] then []
    else if !p(s[0]) then Runs(s[1..], p)
    else
      var j := RunEnd(s, 0, p);
      [s[..j]] + Runs(s[j..], p)
  }

  /** A character outside the class separates runs: the runs of `a + [c] + b`
      are those of `a` followed by those of `b`. */
  lemma {:induction false} RunsConcat(a: string, c: char, b: string, p: char -> bool)
    requires !p(c)
    ensures Runs(a + [c] + b, p) == Runs(a, p) + Runs(b, p)
    decreases |a|
  {
    var s := a + [c] + b;
    if a == [] {
      assert s[1..] == b;
    } else if !p(a[0]) {
      assert s[1..] == a[1..] + [c] + b;
      RunsConcat(a[1..], c, b, p);
    } else {
      var j := RunEnd(a, 0, p);
      RunEndUnique(s, 0, j, p);
      assert s[..j] == a[..j];
      assert s[j..] == a[j..] + [c] + b;
      RunsConcat(a[j..], c, b, p);
    }
  }

  /** A non-empty string made only of class characters is one run. */
  lemma RunsWhole(w: string, p: char -> bool)
    requires w != [] && forall k :: 0 <= k < |w| ==> p(w[k])
    ensures Runs(w, p) == [w]
  {
    RunEndUnique(w, 0, |w|, p);
    assert w[..|w|] == w;
    assert w[|w|..] == [];
  }

  /** A run followed by a separator comes out first, whole. */
  lemma RunsLead(a: string, c: char, b: string, p: char -> bool)
    requires a != [] && (forall k :: 0 <= k < |a| ==> p(a[k])) && !p(c)
    ensures Runs(a + [c] + b, p) == [a] + Runs(b, p)
  {
    RunsConcat(a, c, b, p);
    RunsWhole(a, p);
  }

  lemma RunsSkip(c: char, b: string, p: char -> bool)
    requires !p(c)
    ensures Runs([c] + b, p) == Runs(b, p)
  {
    RunsConcat([], c, b, p);
    assert [] + [c] + b == [c] + b;
  }

  /** The shape of a tag matched by `\w+ *\w+`: at least two characters,
      word characters at both ends, nothing but word characters and spaces,
      and the spaces in one contiguous block. */
  predicate ValidTag(t: string) {
    && |t| >= 2
    && IsWordChar(t[0]) && IsWordChar(t[|t| - 1])
    && (forall k :: 0 <= k < |t| ==> IsWordChar(t[k]) || IsSpace(t[k]))
    && (forall a, b, c :: 0 <= a < b < c < |t| && IsSpace(t[a]) && IsSpace(t[c]) ==> IsSpace(t[b]))
  }

  /** `re.findall(r'(\w+ *\w+)+', s)`. The greedy second `\w+` always ends a
      match at the end of a word, so the group never repeats and every match
      is one tag: a word, optional spaces and a word; a one-character word
      with no word after it matches nothing. */
  function WordTags(s: string): seq<string>
    decreases |s|
  {
    if s == [] then []
    else if !IsWordChar(s[0]) then WordTags(s[1..])
    else
      var q := RunEnd(s, 0, IsWordChar);
      var r := RunEnd(s, q, IsSpace);
      if r < |s| && IsWordChar(s[r]) then
        var t := RunEnd(s, r, IsWordChar);
        [s[..t]] + WordTags(s[t..])
      else if q >= 2 then
        [s[..q]] + WordTags(s[q..])
      else
        WordTags(s[q..])
  }

  /** Every tag has the shape of `\w+ *\w+`. */
  lemma {:induction false} WordTagsValid(s: string)
    ensures forall t :: t in WordTags(s) ==> ValidTag(t)
    decreases |s|
  {
    if s == [] {
    } else if !IsWordChar(s[0]) {
      WordTagsValid(s[1..]);
    } else {
      var q := RunEnd(s, 0, IsWordChar);
      var r := RunEnd(s, q, IsSpace);
      if r < |s| && IsWordChar(s[r]) {
        var e := RunEnd(s, r, IsWordChar);
        WordTagsValid(s[e..]);
        var w := s[..e];
        assert forall k :: 0 <= k < |w| && IsSpace(w[k]) ==> q <= k < r;
        assert ValidTag(w);
      } else {
        WordTagsValid(s[q..]);
        assert q >= 2 ==> ValidTag(s[..q]);
      }
    }
  }

  /** `t` occurs in `s` at position `k`. */
  predicate OccursAt(t: string, s: string, k: int) {
    0 <= k <= |s| - |t| && s[k..k + |t|] == t
  }

  /** `t` occurs as a contiguous piece of `s`. */
  ghost predicate Occurs(t: string, s: string) {
    exists k :: OccursAt(t, s, k)
  }

  lemma OccursInSuffix(t: string, s: string, j: nat)
    requires j <= |s| && Occurs(t, s[j..])
    ensures Occurs(t, s)
  {
    var k :| OccursAt(t, s[j..], k);
    assert s[j + k..j + k + |t|] == t;
    assert OccursAt(t, s, j + k);
  }

  /** Every tag is a substring of the text it was found in. */
  lemma {:induction false} WordTagsOccur(s: string)
    ensures forall t :: t in WordTags(s) ==> Occurs(t, s)
    decreases |s|
  {
    if s == [] {
    } else if !IsWordChar(s[0]) {
      WordTagsOccur(s[1..]);
      forall t | t in WordTags(s) ensures Occurs(t, s) { OccursInSuffix(t, s, 1); }
    } else {
      var q := RunEnd(s, 0, IsWordChar);
      var r := RunEnd(s, q, IsSpace);
      var j := if r < |s| && IsWordChar(s[r]) then RunEnd(s, r, IsWordChar) else q;
      WordTagsOccur(s[j..]);
      assert OccursAt(s[..j], s, 0);
      forall t | t in WordTags(s[j..]) ensures Occurs(t, s) { OccursInSuffix(t, s, j); }
    }
  }

  /** Where the piece of text that `WordTags` consumes at a word
      character ends: after the second word when spaces and a word follow
      the first, else after the first word. */
  function TagEnd(s: string): (j: nat)
    requires s != [] && IsWordChar(s[0])
    ensures 1 <= j <= |s|
  {
    var q := RunEnd(s, 0, IsWordChar);
    var r := RunEnd(s, q, IsSpace);
    if r < |s| && IsWordChar(s[r]) then RunEnd(s, r, IsWordChar) else q
  }

  /** The tag, if any, found in that piece: none for a lone one-character
      word. */
  function TagHead(s: string): (r: seq<string>)
    requires s != [] && IsWordChar(s[0])
    ensures |r| <= 1
  {
    var q := RunEnd(s, 0, IsWordChar);
    var r := RunEnd(s, q, IsSpace);
    if (r < |s| && IsWordChar(s[r])) || q >= 2 then [s[..TagEnd(s)]] else []
  }

  lemma WordTagsAtWord(s: string)
    requires s != [] && IsWordChar(s[0])
    ensures WordTags(s) == TagHead(s) + WordTags(s[TagEnd(s)..])
  {
  }

  /** A character that is neither a word character nor a space, put after
      `a`, changes neither the piece nor the tag read at the start of `a`. */
  lemma TagAtWordConcat(a: string, c: char, b: string)
    requires !IsWordChar(c) && !IsSpace(c)
    requires a != [] && IsWordChar(a[0])
    ensures (a + [c] + b)[0] == a[0]
    ensures TagEnd(a + [c] + b) == TagEnd(a) && TagHead(a + [c] + b) == TagHead(a)
  {
    var s := a + [c] + b;
    var q := RunEnd(a, 0, IsWordChar);
    RunEndUnique(s, 0, q, IsWordChar);
    var r := RunEnd(a, q, IsSpace);
    RunEndUnique(s, q, r, IsSpace);
    assert s[r] == if r < |a| then a[r] else c;
    if r < |a| && IsWordChar(a[r]) {
      var t := RunEnd(a, r, IsWordChar);
      RunEndUnique(s, r, t, IsWordChar);
      assert s[..t] == a[..t];
    } else {
      assert s[..q] == a[..q];
    }
  }

  /** A character that is neither a word character nor a space ends every
      tag: the tags of `a + [c] + b` are those of `a` followed by those of
      `b`. */
  lemma {:induction false} WordTagsConcat(a: string, c: char, b: string)
    requires !IsWordChar(c) && !IsSpace(c)
    ensures WordTags(a + [c] + b) == WordTags(a) + WordTags(b)
    decreases |a|
  {
    var s := a + [c] + b;
    if a == [] {
      assert s[1..] == b;
    } else if !IsWordChar(a[0]) {
      assert s[1..] == a[1..] + [c] + b;
      WordTagsConcat(a[1..], c, b);
    } else {
      TagAtWordConcat(a, c, b);
      var j := TagEnd(a);
      WordTagsAtWord(a);
      WordTagsAtWord(s);
      assert s[j..] == a[j..] + [c] + b;
      WordTagsConcat(a[j..], c, b);
    }
  }

  /** A well-formed tag on its own is read back as exactly that tag. */
  lemma WordTagsOfTag(t: string)
    requires ValidTag(t)
    ensures WordTags(t) == [t]
  {
    var q := RunEnd(t, 0, IsWordChar);
    var r := RunEnd(t, q, IsSpace);
    if q == |t| {
      assert t[..q] == t;
      assert t[q..] == [];
    } else {
      assert IsSpace(t[q]);
      assert r < |t|;
      var e := RunEnd(t, r, IsWordChar);
      assert e == |t|;
      assert t[..e] == t;
      assert t[e..] == [];
    }
  }

  lemma WordTagsSkip(c: char, s: string)
    requires !IsWordChar(c)
    ensures WordTags([c] + s) == WordTags(s)
  {
    assert ([c] + s)[1..] == s;
  }

  /** `", ".join(ts)` */
  function Join(ts: seq<string>): (r: string)
    ensures |ts| == 1 ==> r == ts[0]
    decreases |ts|
  {
    if |ts| == 0 then [] else if |ts| == 1 then ts[0] else ts[0] + ", " + Join(ts[1..])
  }

  /** A property of characters that holds throughout the tags, and of the
      comma and space between them, holds throughout the joined list. */
  lemma {:induction false} JoinKeeps(ts: seq<string>, p: char -> bool)
    requires p(',') && p(' ')
    requires forall t :: t in ts ==> forall k :: 0 <= k < |t| ==> p(t[k])
    ensures forall k :: 0 <= k < |Join(ts)| ==> p(Join(ts)[k])
    decreases |ts|
  {
    if |ts| >= 2 {
      JoinKeeps(ts[1..], p);
      var x, y := ts[0], Join(ts[1..]);
      assert x in ts;
      assert Join(ts) == x + ", " + y;
      forall k | 0 <= k < |Join(ts)| ensures p(Join(ts)[k]) {
        if k < |x| {
          assert Join(ts)[k] == x[k];
        } else if k >= |x| + 2 {
          assert Join(ts)[k] == y[k - |x| - 2];
        } else {
          assert Join(ts)[k] == ", "[k - |x|];
        }
      }
    } else if |ts| == 1 {
      assert ts[0] in ts;
    }
  }

  /** The bracketed, comma-separated list the tag prompt asks for. */
  function RenderList(ts: seq<string>): (r: string)
    ensures |r| >= 2 && r[0] == '[' && r[|r| - 1] == ']'
  {
    "[" + Join(ts) + "]"
  }

  /** Reading the tags of a joined list of well-formed tags gives the list back. */
  lemma {:induction false} WordTagsJoin(ts: seq<string>)
    requires forall t :: t in ts ==> ValidTag(t)
    ensures WordTags(Join(ts)) == ts
    decreases |ts|
  {
    if |ts| == 1 {
      WordTagsOfTag(ts[0]);
    } else if |ts| >= 2 {
      var tail := ts[1..];
      assert ts == [ts[0]] + tail;
      var rest := " " + Join(tail);
      assert Join(ts) == ts[0] + [','] + rest;
      WordTagsConcat(ts[0], ',', rest);
      WordTagsOfTag(ts[0]);
      WordTagsSkip(' ', Join(tail));
      WordTagsJoin(tail);
    }
  }

  lemma WordTagsRenderList(ts: seq<string>)
    requires forall t :: t in ts ==> ValidTag(t)
    ensures WordTags(RenderList(ts)) == ts
  {
    var x := Join(ts);
    assert RenderList(ts) == [] + ['['] + (x + [']'] + []);
    WordTagsConcat([], '[', x + [']'] + []);
    WordTagsConcat(x, ']', []);
    WordTagsJoin(ts);
  }
}
