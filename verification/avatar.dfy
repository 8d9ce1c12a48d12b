/** `Avatar.tsx`'s `getInitials`: the first character of each space-separated
    part of the name, upper-cased, at most two of them. */
module Avatar {
  import opened Text

  /** `s.split(" ")`: the parts between single spaces, empty ones included;
      there is always at least one. */
  function Split(s: string): (r: seq<string>)
    ensures |r| >= 1
    ensures forall i :: 0 <= i < |r| ==> ' ' !in r[i]
  {
    if s == [] then [""]
    else
      var rest := Split(s[1..]);
      if s[0] == ' ' then [""] + rest else [[s[0]] + rest[0]] + rest[1..]
  }

  /** `parts.join(" ")`. */
  function Join(parts: seq<string>): string
    requires |parts| >= 1
  {
    if |parts| == 1 then parts[0] else parts[0] + " " + Join(parts[1..])
  }

  /** `.map((n) => n[0]).join("")`: an empty part gives `undefined`, which
      `join` writes as nothing. */
  function Firsts(parts: seq<string>): (r: string)
    ensures |r| <= |parts|
  {
    if parts == [] then ""
    else (if parts[0] == [] then "" else [parts[0][0]]) + Firsts(parts[1..])
  }

  /** `getInitials`. */
  function Initials(name: string): (r: string)
    ensures |r| <= 2
  {
    var all := Upper(Firsts(Split(name)));
    if |all| <= 2 then all else all[..2]
  }

  /** The characters that begin a word: not a space, and first in the
      string (when `atStart`) or right after a space. */
  function WordStarts(s: string, atStart: bool): string {
    if s == [] then ""
    else (if atStart && s[0] != ' ' then [s[0]] else "") + WordStarts(s[1..], s[0] == ' ')
  }

  lemma {:induction false} JoinCons(c: char, parts: seq<string>)
    requires |parts| >= 1
    ensures Join([[c] + parts[0]] + parts[1..]) == [c] + Join(parts)
  {
    var p := [[c] + parts[0]] + parts[1..];
    assert p[1..] == parts[1..];
  }

  /** Joining the parts gives the name back. */
  lemma {:induction false} SplitJoin(s: string)
    ensures Join(Split(s)) == s
  {
    if s != [] {
      var rest := Split(s[1..]);
      SplitJoin(s[1..]);
      if s[0] == ' ' {
        assert ([""] + rest)[1..] == rest;
        assert s == [' '] + s[1..];
      } else {
        JoinCons(s[0], rest);
        assert s == [s[0]] + s[1..];
      }
    }
  }

  /** The first letters of all parts but the first are the word starts
      that follow a space. */
  lemma {:induction false} FirstsOfLaterParts(t: string)
    ensures Firsts(Split(t)[1..]) == WordStarts(t, false)
  {
    if t != [] {
      var rest := Split(t[1..]);
      FirstsOfLaterParts(t[1..]);
      if t[0] == ' ' {
        assert Split(t)[1..] == rest;
        assert rest == [rest[0]] + rest[1..];
        assert Firsts(rest) == (if rest[0] == [] then "" else [rest[0][0]]) + Firsts(rest[1..]);
        StartOfFirstPart(t[1..]);
      } else {
        assert Split(t)[1..] == rest[1..];
      }
    }
  }

  /** The first part is empty exactly when the string is empty or starts
      with a space, and otherwise starts with the string's first
      character. */
  lemma StartOfFirstPart(t: string)
    ensures Split(t)[0] == [] <==> t == [] || t[0] == ' '
    ensures Split(t)[0] != [] ==> Split(t)[0][0] == t[0]
  {
  }

  /** The first letters of the parts are the word starts of the name. */
  lemma FirstsAreWordStarts(name: string)
    ensures Firsts(Split(name)) == WordStarts(name, true)
  {
    var parts := Split(name);
    FirstsOfLaterParts(name);
    StartOfFirstPart(name);
    assert Firsts(parts) == (if parts[0] == [] then "" else [parts[0][0]]) + Firsts(parts[1..]);
    if name != [] {
      assert WordStarts(name, false) == WordStarts(name[1..], name[0] == ' ');
    }
  }

  /** The initials are the upper-cased first characters of the words, at
      most two; runs of spaces, and leading or trailing ones, contribute
      nothing. */
  lemma InitialsAreWordStarts(name: string)
    ensures var w := WordStarts(name, true);
      var r := Initials(name);
      && |r| == (if |w| <= 2 then |w| else 2)
      && forall i :: 0 <= i < |r| ==> r[i] == AsciiUpper(w[i])
  {
    FirstsAreWordStarts(name);
  }

  /** Position `i` of `s` begins a word. */
  predicate StartsWord(s: string, i: int, atStart: bool) {
    0 <= i < |s| && s[i] != ' ' && (if i == 0 then atStart else s[i - 1] == ' ')
  }

  /** The word starts hold exactly the characters at positions that begin
      a word. */
  lemma {:induction false} WordStartsIff(s: string, atStart: bool, c: char)
    ensures c in WordStarts(s, atStart) <==> exists i :: StartsWord(s, i, atStart) && s[i] == c
  {
    if s != [] {
      var head: string := if atStart && s[0] != ' ' then [s[0]] else "";
      var tail := WordStarts(s[1..], s[0] == ' ');
      assert WordStarts(s, atStart) == head + tail;
      WordStartsIff(s[1..], s[0] == ' ', c);
      if c in tail {
        var i :| StartsWord(s[1..], i, s[0] == ' ') && s[1..][i] == c;
        assert StartsWord(s, i + 1, atStart) && s[i + 1] == c;
      }
      if exists i :: StartsWord(s, i, atStart) && s[i] == c {
        var i :| StartsWord(s, i, atStart) && s[i] == c;
        if i > 0 {
          assert StartsWord(s[1..], i - 1, s[0] == ' ') && s[1..][i - 1] == c;
        }
      }
    }
  }

  /** An empty name, or one of spaces only, has no initials; a double space
      adds nothing, and a third word is cut off. */
  lemma InitialsExamples()
    ensures Initials("") == ""
    ensures Initials("  ") == ""
    ensures Initials("a  b c") == "AB"
  {
    InitialsAreWordStarts("  ");
    assert WordStarts("  ", true) == "" by {
      assert "  "[1..] == " " && " "[1..] == "";
    }
    var s := "a  b c";
    InitialsAreWordStarts(s);
    assert WordStarts(s, true) == "abc" by {
      assert s[1..] == "  b c" && s[2..] == " b c" && s[3..] == "b c";
      assert s[4..] == " c" && s[5..] == "c" && s[6..] == "";
      assert WordStarts(s[3..], true) == "bc";
    }
  }
}
