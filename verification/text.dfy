/** Text helpers: joining strings, and splitting a string into the lines that
    Ruby's line anchors `^` and `$` see. */
module Text {

  /** `parts` with `sep` between consecutive parts, as Ruby's `Array#join`. */
  function Join(parts: seq<string>, sep: string): string
  {
    if parts == [] then ""
    else if |parts| == 1 then parts[0]
    else parts[0] + sep + Join(parts[1..], sep)
  }

  /** The lines of `s`: the maximal pieces of `s` between newline characters.
      A string with k newlines has k + 1 lines, some of which may be empty;
      one without a newline is a single line. */
  function Lines(s: string): (ls: seq<string>)
    ensures |ls| >= 1
    ensures forall i :: 0 <= i < |ls| ==> '\n' !in ls[i]
    ensures '\n' !in s ==> ls == [s]
    decreases |s|
  {
    if s == [] then [""]
    else
      assert '\n' !in s ==> '\n' !in s[1..] && s == [s[0]] + s[1..];
      var rest := Lines(s[1..]);
      if s[0] == '\n' then [""] + rest
      else [[s[0]] + rest[0]] + rest[1..]
  }

  /** Splitting into lines loses nothing: joining the lines with newlines gives `s` back. */
  lemma {:induction false} JoinLines(s: string)
    ensures Join(Lines(s), "\n") == s
    decreases |s|
  {
    if s != [] {
      var rest := Lines(s[1..]);
      JoinLines(s[1..]);
      if s[0] == '\n' {
        assert ([""] + rest)[1..] == rest;
      } else {
        JoinOntoFirst(s[0], rest);
        assert s == [s[0]] + s[1..];
      }
    }
  }

  /** Putting a character in front of the first line puts it in front of the joined text. */
  lemma {:induction false} JoinOntoFirst(c: char, ls: seq<string>)
    requires |ls| >= 1
    ensures Join([[c] + ls[0]] + ls[1..], "\n") == [c] + Join(ls, "\n")
  {
    var ms := [[c] + ls[0]] + ls[1..];
    if |ls| == 1 {
      assert ms == [[c] + ls[0]];
    } else {
      var tail := "\n" + Join(ls[1..], "\n");
      assert Join(ms, "\n") == ([c] + ls[0]) + tail by {
        assert ms[1..] == ls[1..];
      }
      assert ([c] + ls[0]) + tail == [c] + (ls[0] + tail);
    }
  }
}
