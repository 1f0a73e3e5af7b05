/** Strings that are joined with slashes and other separators. */
module Segments {
  function Slash(a: string, rest: string): string {
    a + "/" + rest
  }

  function UntilSlash(s: string): (k: nat)
    ensures k <= |s| && '/' !in s[..k] && (k < |s| ==> s[k] == '/')
  {
    if s == "" || s[0] == '/' then 0 else
      var k := 1 + UntilSlash(s[1..]);
      assert s[..k] == [s[0]] + s[1..][..k - 1];
      k
  }

  lemma {:induction false} FirstSlash(a: string, rest: string, s: string)
    requires '/' !in a && Slash(a, rest) <= s
    ensures UntilSlash(s) == |a|
  {
    if a == "" {
      assert s[0] == '/';
    } else {
      assert a[0] in a && s[0] == a[0];
      assert Slash(a[1..], rest) == Slash(a, rest)[1..] <= s[1..];
      FirstSlash(a[1..], rest, s[1..]);
    }
  }

  lemma SameSegment(a: string, x: string, b: string, y: string)
    requires '/' !in a && '/' !in b
    ensures Slash(a, x) <= Slash(b, y) <==> a == b && x <= y
  {
    var s, t := Slash(a, x), Slash(b, y);
    if s <= t {
      FirstSlash(a, x, t);
      FirstSlash(b, y, t);
      assert s[..|a|] == a && t[..|b|] == b;
      assert s[|a| + 1..] == x && t[|b| + 1..] == y;
      assert x <= y;
    }
  }

  lemma AfterTag(tag: string, x: string, y: string)
    ensures tag + x <= tag + y <==> x <= y
  {
    assert (tag + x)[|tag|..] == x && (tag + y)[|tag|..] == y;
  }

  // ---------------------------------------------------------------- splitting

  /** The pieces between separators: `String.prototype.split`. */
  function Split(s: string, separator: char): (pieces: seq<string>)
    ensures |pieces| >= 1
  {
    if s == "" then [""] else
      var rest := Split(s[1..], separator);
      if s[0] == separator then [""] + rest else [[s[0]] + rest[0]] + rest[1..]
  }

  lemma {:induction false} SplitOnePiece(s: string, separator: char)
    requires separator !in s
    ensures Split(s, separator) == [s]
  {
    if s != "" {
      assert s[0] in s;
      SplitOnePiece(s[1..], separator);
      assert s == [s[0]] + s[1..];
    }
  }

  lemma {:induction false} SplitFirstPiece(a: string, separator: char, rest: string)
    requires separator !in a
    ensures Split(a + [separator] + rest, separator) == [a] + Split(rest, separator)
  {
    var s := a + [separator] + rest;
    if a == "" {
      assert s[0] == separator && s[1..] == rest;
    } else {
      assert a[0] in a && s[0] == a[0];
      assert s[1..] == a[1..] + [separator] + rest;
      SplitFirstPiece(a[1..], separator, rest);
      assert a == [a[0]] + a[1..];
    }
  }

  function Joined(pieces: seq<string>, separator: char): string {
    if pieces == [] then "" else if |pieces| == 1 then pieces[0]
        else pieces[0] + [separator] + Joined(pieces[1..], separator)
  }

  /** The pieces joined again are the string, and none of them holds a separator. */
  lemma {:induction false} SplitIsExact(s: string, separator: char)
    ensures Joined(Split(s, separator), separator) == s
    ensures forall p :: p in Split(s, separator) ==> separator !in p
  {
    if s != "" {
      SplitIsExact(s[1..], separator);
      var rest, pieces := Split(s[1..], separator), Split(s, separator);
      if s[0] == separator {
        assert pieces[1..] == rest;
        assert s == [separator] + s[1..];
      } else {
        assert pieces[1..] == rest[1..];
        assert s == [s[0]] + s[1..];
      }
    }
  }
}
