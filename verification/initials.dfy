/**
 * The avatar's initials: the username is split at each space, the first
 * character of every piece is taken (an empty piece gives nothing), and the
 * result is upper-cased.
 */
module Initials {

  /** `s.split(' ')`: the pieces between spaces, empty pieces included; never an empty list. */
  function Split(s: string): (pieces: seq<string>)
    ensures |pieces| >= 1
    ensures forall k :: 0 <= k < |pieces| ==> ' ' !in pieces[k]
    decreases |s|
  {
    if s == [] then [[]]
    else
      var rest := Split(s[1..]);
      if s[0] == ' ' then [[]] + rest
      else [[s[0]] + rest[0]] + rest[1..]
  }

  /** `pieces.join(' ')`. */
  function Join(pieces: seq<string>): string
    requires |pieces| >= 1
    decreases |pieces|
  {
    if |pieces| == 1 then pieces[0] else pieces[0] + " " + Join(pieces[1..])
  }

  /** The number of spaces in `s`. */
  function Spaces(s: string): nat
    decreases |s|
  {
    if s == [] then 0 else (if s[0] == ' ' then 1 else 0) + Spaces(s[1..])
  }

  /** Joining the pieces with spaces gives the name back, and there is one piece more than spaces. */
  lemma {:induction false} SplitJoin(s: string)
    ensures Join(Split(s)) == s
    ensures |Split(s)| == Spaces(s) + 1
    decreases |s|
  {
    if s != [] {
      var rest := Split(s[1..]);
      SplitJoin(s[1..]);
      if s[0] == ' ' {
        assert ([[]] + rest)[1..] == rest;
      } else {
        var pieces := [[s[0]] + rest[0]] + rest[1..];
        if |rest| > 1 {
          assert pieces[1..] == rest[1..];
          assert Join(rest) == rest[0] + " " + Join(rest[1..]);
        }
      }
    }
  }

  /** `.map(name => name[0]).join('')`: the first character of each piece, none for an empty piece. */
  function FirstChars(pieces: seq<string>): (r: string)
    ensures |r| <= |pieces|
    decreases |pieces|
  {
    if pieces == [] then []
    else (if pieces[0] == [] then [] else [pieces[0][0]]) + FirstChars(pieces[1..])
  }

  /**
   * The characters of `s` that start a word: not a space, and at the start
   * (when `atStart`) or right after a space.
   */
  function WordStarts(s: string, atStart: bool): string
    decreases |s|
  {
    if s == [] then []
    else (if atStart && s[0] != ' ' then [s[0]] else []) + WordStarts(s[1..], s[0] == ' ')
  }

  /**
   * Taking first characters of the pieces picks exactly the word-starting
   * characters; the pieces after the first pick those not at the very start.
   */
  lemma {:induction false} FirstCharsAreWordStarts(s: string)
    ensures FirstChars(Split(s)) == WordStarts(s, true)
    ensures FirstChars(Split(s)[1..]) == WordStarts(s, false)
    decreases |s|
  {
    if s != [] {
      var t := s[1..];
      var rest := Split(t);
      FirstCharsAreWordStarts(t);
      if s[0] == ' ' {
        assert Split(s) == [[]] + rest;
        assert Split(s)[1..] == rest;
      } else {
        assert Split(s) == [[s[0]] + rest[0]] + rest[1..];
        assert Split(s)[1..] == rest[1..];
      }
    }
  }

  /** ASCII upper-casing of one character. */
  function UpperChar(c: char): (u: char)
    ensures 'a' <= c <= 'z' ==> 'A' <= u <= 'Z' && u as int == c as int - 32
    ensures !('a' <= c <= 'z') ==> u == c
  {
    if 'a' <= c <= 'z' then (c as int - 32) as char else c
  }

  /** `toUpperCase`, character by character. */
  function Upper(s: string): (r: string)
    ensures |r| == |s|
    ensures forall i :: 0 <= i < |s| ==> r[i] == UpperChar(s[i])
    decreases |s|
  {
    if s == [] then [] else [UpperChar(s[0])] + Upper(s[1..])
  }

  /**
   * The initials shown in the avatar: the upper-cased word-starting
   * characters of the name, at most one more than the number of spaces.
   */
  function InitialsOf(username: string): (r: string)
    ensures r == Upper(WordStarts(username, true))
    ensures |r| <= Spaces(username) + 1
  {
    FirstCharsAreWordStarts(username);
    SplitJoin(username);
    Upper(FirstChars(Split(username)))
  }

  /** A name without spaces gives the upper-cased first character alone. */
  lemma SingleWord(username: string)
    requires username != [] && ' ' !in username
    ensures InitialsOf(username) == [UpperChar(username[0])]
  {
    FirstCharsAreWordStarts(username);
    var t := username[1..];
    assert ' ' !in t;
    NoWordStarts(t);
  }

  /** Inside a word, no later character starts one. */
  lemma {:induction false} NoWordStarts(s: string)
    requires ' ' !in s
    ensures WordStarts(s, false) == []
    decreases |s|
  {
    if s != [] {
      assert ' ' !in s[1..];
      NoWordStarts(s[1..]);
    }
  }
}
