/** grep's matcher (user/grep.c:61-91), after chapter 9 of The Practice of Programming.

    Pattern and text are the characters before the NUL.
 */
module Grep {

  // ----- what a pattern means

  /** One character (any if it is `.`), or any number of them. */
  datatype Item = One(c: char) | Star(c: char)

  /** A pattern: its items, and whether it ends in an anchor. */
  datatype Pattern = Pattern(items: seq<Item>, atEnd: bool)

  /** Reading a pattern without its leading `^`: a star takes the character before it, whatever
      that is, and `$` is an anchor only as the last character. */
  function Read(re: string): Pattern {
    if re == "" then Pattern([], false)
    else if |re| > 1 && re[1] == '*' then
      var p := Read(re[2..]); Pattern([Star(re[0])] + p.items, p.atEnd)
    else if re == "$" then Pattern([], true)
    else
      var p := Read(re[1..]); Pattern([One(re[0])] + p.items, p.atEnd)
  }

  predicate Fits(c: char, d: char) { c == '.' || c == d }

  /** The strings a list of items stands for. */
  ghost predicate Denotes(items: seq<Item>, w: string) {
    if items == [] then w == ""
    else match items[0]
      case One(c) => w != "" && Fits(c, w[0]) && Denotes(items[1..], w[1..])
      case Star(c) => exists k :: 0 <= k <= |w| && AllFit(c, w[..k]) && Denotes(items[1..], w[k..])
  }

  predicate AllFit(c: char, w: string) { forall i :: 0 <= i < |w| ==> Fits(c, w[i]) }

  /** Some prefix of the text is denoted by the pattern: all of it if the pattern ends in `$`. */
  ghost predicate PrefixMatches(p: Pattern, text: string) {
    exists j :: 0 <= j <= |text| && Denotes(p.items, text[..j]) && (p.atEnd ==> j == |text|)
  }

  /** What grep looks for: a match anywhere, or at the start if the pattern begins with `^`. */
  ghost predicate Matches(re: string, text: string) {
    if re != "" && re[0] == '^' then PrefixMatches(Read(re[1..]), text)
    else exists i :: 0 <= i <= |text| && PrefixMatches(Read(re), text[i..])
  }

  // ----- the matcher as functions

  predicate MatchHere(re: string, text: string)
    decreases |re|, |text|, 0
  {
    if re == "" then true
    else if |re| > 1 && re[1] == '*' then MatchStar(re[0], re[2..], text)
    else if re == "$" then text == ""
    else text != "" && Fits(re[0], text[0]) && MatchHere(re[1..], text[1..])
  }

  predicate MatchStar(c: char, re: string, text: string)
    decreases |re|, |text|, 1
  {
    MatchHere(re, text) || (text != "" && Fits(c, text[0]) && MatchStar(c, re, text[1..]))
  }

  /** matchhere accepts exactly the texts with a prefix the pattern denotes. */
  lemma {:induction false} HereIsPrefix(re: string, text: string)
    ensures MatchHere(re, text) <==> PrefixMatches(Read(re), text)
    decreases |re|, |text|, 0
  {
    var p := Read(re);
    if re == "" {
      assert Denotes([], text[..0]);
    } else if |re| > 1 && re[1] == '*' {
      StarIsPrefix(re[0], re[2..], text);
      assert p.items[1..] == Read(re[2..]).items;
      StarDenotes(re[0], Read(re[2..]), p, text);
    } else if re == "$" {
      assert Denotes([], text[..0]);
    } else {
      assert p.items[1..] == Read(re[1..]).items;
      if text != "" { HereIsPrefix(re[1..], text[1..]); }
      OneDenotes(re[0], Read(re[1..]), p, text);
    }
  }

  /** A pattern that starts with one character. */
  lemma OneDenotes(c: char, rest: Pattern, p: Pattern, text: string)
    requires p.items != [] && p.items[0] == One(c) && p.items[1..] == rest.items && p.atEnd == rest.atEnd
    ensures PrefixMatches(p, text) <==> text != "" && Fits(c, text[0]) && PrefixMatches(rest, text[1..])
  {
    if PrefixMatches(p, text) {
      var j :| 0 <= j <= |text| && Denotes(p.items, text[..j]) && (p.atEnd ==> j == |text|);
      assert text[..j][1..] == text[1..][..j - 1];
    }
    if text != "" && Fits(c, text[0]) && PrefixMatches(rest, text[1..]) {
      var j :| 0 <= j <= |text[1..]| && Denotes(rest.items, text[1..][..j]) && (rest.atEnd ==> j == |text[1..]|);
      assert text[..j + 1][1..] == text[1..][..j];
      assert Denotes(p.items, text[..j + 1]);
    }
  }

  /** A pattern that starts with a star. */
  lemma StarDenotes(c: char, rest: Pattern, p: Pattern, text: string)
    requires p.items != [] && p.items[0] == Star(c) && p.items[1..] == rest.items && p.atEnd == rest.atEnd
    ensures PrefixMatches(p, text) <==>
      exists k :: 0 <= k <= |text| && AllFit(c, text[..k]) && PrefixMatches(rest, text[k..])
  {
    if PrefixMatches(p, text) {
      var j :| 0 <= j <= |text| && Denotes(p.items, text[..j]) && (p.atEnd ==> j == |text|);
      var w := text[..j];
      var k :| 0 <= k <= |w| && AllFit(c, w[..k]) && Denotes(rest.items, w[k..]);
      assert w[..k] == text[..k] && w[k..] == text[k..][..j - k];
      assert PrefixMatches(rest, text[k..]);
    }
    if exists k :: 0 <= k <= |text| && AllFit(c, text[..k]) && PrefixMatches(rest, text[k..]) {
      var k :| 0 <= k <= |text| && AllFit(c, text[..k]) && PrefixMatches(rest, text[k..]);
      var j :| 0 <= j <= |text[k..]| && Denotes(rest.items, text[k..][..j]) && (rest.atEnd ==> j == |text[k..]|);
      var w := text[..k + j];
      assert w[..k] == text[..k] && w[k..] == text[k..][..j];
      assert Denotes(p.items, w);
    }
  }

  /** matchstar tries every number of repetitions. */
  lemma {:induction false} StarIsPrefix(c: char, re: string, text: string)
    ensures MatchStar(c, re, text) <==>
            exists k :: 0 <= k <= |text| && AllFit(c, text[..k]) && PrefixMatches(Read(re), text[k..])
    decreases |re|, |text|, 1
  {
    HereIsPrefix(re, text);
    if MatchHere(re, text) {
      assert text[0..] == text && AllFit(c, text[..0]);
    } else if text != "" && Fits(c, text[0]) {
      StarIsPrefix(c, re, text[1..]);
      MoreRepetitions(c, Read(re), text);
    } else {
      NoRepetition(c, Read(re), text);
    }
  }

  lemma MoreRepetitions(c: char, rest: Pattern, text: string)
    requires text != "" && Fits(c, text[0]) && !PrefixMatches(rest, text)
    ensures (exists k :: 0 <= k <= |text| && AllFit(c, text[..k]) && PrefixMatches(rest, text[k..])) <==>
            exists k :: 0 <= k <= |text[1..]| && AllFit(c, text[1..][..k]) && PrefixMatches(rest, text[1..][k..])
  {
    var tail := text[1..];
    if exists k :: 0 <= k <= |text| && AllFit(c, text[..k]) && PrefixMatches(rest, text[k..]) {
      var k :| 0 <= k <= |text| && AllFit(c, text[..k]) && PrefixMatches(rest, text[k..]);
      assert text[0..] == text;
      assert k > 0 && tail[k - 1..] == text[k..];
      var w := tail[..k - 1];
      forall i | 0 <= i < |w| ensures Fits(c, w[i]) { assert w[i] == text[..k][i + 1]; }
      assert AllFit(c, w);
    }
    if exists k :: 0 <= k <= |tail| && AllFit(c, tail[..k]) && PrefixMatches(rest, tail[k..]) {
      var k :| 0 <= k <= |tail| && AllFit(c, tail[..k]) && PrefixMatches(rest, tail[k..]);
      assert text[k + 1..] == tail[k..];
      var w := text[..k + 1];
      forall i | 0 <= i < |w| ensures Fits(c, w[i]) { assert i > 0 ==> w[i] == tail[..k][i - 1]; }
      assert AllFit(c, w);
    }
  }

  lemma NoRepetition(c: char, rest: Pattern, text: string)
    requires !PrefixMatches(rest, text) && (text == "" || !Fits(c, text[0]))
    ensures !exists k :: 0 <= k <= |text| && AllFit(c, text[..k]) && PrefixMatches(rest, text[k..])
  {
    forall k | 0 <= k <= |text| ensures !(AllFit(c, text[..k]) && PrefixMatches(rest, text[k..])) {
      var w := text[..k];
      assert k > 0 ==> w[0] == text[0];
      assert text[0..] == text;
    }
  }

  // ----- the matcher

  /** match: 1 exactly if the text has what grep looks for. */
  method Match(re: string, text: string) returns (found: bool)
    ensures found <==> Matches(re, text)
  {
    if re != "" && re[0] == '^' {
      found := Here(re[1..], text);
      HereIsPrefix(re[1..], text);
      return;
    }
    var i := 0;
    while true
      invariant 0 <= i <= |text| && forall j :: 0 <= j < i ==> !PrefixMatches(Read(re), text[j..])
      decreases |text| - i
    {
      HereIsPrefix(re, text[i..]);
      var here := Here(re, text[i..]);
      if here { return true; }
      if i == |text| { return false; }
      i := i + 1;
    }
  }

  /** matchhere. */
  method Here(re: string, text: string) returns (found: bool)
    ensures found == MatchHere(re, text)
    decreases |re|, |text|, 0
  {
    if re == "" { return true; }
    if |re| > 1 && re[1] == '*' {
      found := Repeat(re[0], re[2..], text);
      return;
    }
    if re[0] == '$' && |re| == 1 { return text == ""; }
    if text != "" && (re[0] == '.' || re[0] == text[0]) {
      found := Here(re[1..], text[1..]);
      return;
    }
    return false;
  }

  /** matchstar. */
  method Repeat(c: char, re: string, text: string) returns (found: bool)
    ensures found == MatchStar(c, re, text)
    decreases |re|, |text|, 1
  {
    var i := 0;
    assert text[0..] == text;
    while true
      invariant 0 <= i <= |text| && MatchStar(c, re, text) == MatchStar(c, re, text[i..])
      decreases |text| - i
    {
      var here := Here(re, text[i..]);
      if here { return true; }
      if i == |text| || !(text[i] == c || c == '.') { return false; }
      assert text[i..][1..] == text[i + 1..];
      i := i + 1;
    }
  }
}
