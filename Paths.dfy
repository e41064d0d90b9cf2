/** String and path primitives the configuration relies on: JavaScript's
    `String.prototype.split` and `Array.prototype.join` with a one-character
    separator, and Node's `path.resolve` on POSIX for the case the
    configuration uses (a later argument that is already absolute). */
module Paths {

  /** `s.split(sep)`: the pieces of `s` between occurrences of `sep`.
      A string with n separators yields n + 1 pieces, so the result is
      never empty ("".split("/") is [""]). */
  function Split(s: string, sep: char): (r: seq<string>)
    ensures |r| >= 1
    decreases |s|
  {
    if s == [] then [""]
    else
      var rest := Split(s[1..], sep);
      if s[0] == sep then [""] + rest
      else [[s[0]] + rest[0]] + rest[1..]
  }

  /** `segs.join(sep)`. */
  function Join(segs: seq<string>, sep: char): string
    decreases |segs|
  {
    if segs == [] then ""
    else if |segs| == 1 then segs[0]
    else segs[0] + [sep] + Join(segs[1..], sep)
  }

  /** Number of occurrences of `c` in `s`. */
  function Count(s: string, c: char): nat
  {
    if s == [] then 0 else (if s[0] == c then 1 else 0) + Count(s[1..], c)
  }

  /** Splitting yields one more piece than there are separators, and no
      piece contains the separator. */
  lemma {:induction false} SplitShape(s: string, sep: char)
    ensures |Split(s, sep)| == Count(s, sep) + 1
    ensures forall piece <- Split(s, sep) :: sep !in piece
    decreases |s|
  {
    if s != [] {
      SplitShape(s[1..], sep);
    }
  }

  /** Joining the pieces back with the same separator gives the original
      string. */
  lemma {:induction false} JoinSplit(s: string, sep: char)
    ensures Join(Split(s, sep), sep) == s
    decreases |s|
  {
    if s != [] {
      JoinSplit(s[1..], sep);
      var rest := Split(s[1..], sep);
      if s[0] == sep {
        assert Split(s, sep) == [""] + rest;
        assert ([""] + rest)[1..] == rest;
        calc {
          Join([""] + rest, sep);
          "" + [sep] + Join(rest, sep);
          [sep] + s[1..];
          s;
        }
      } else {
        var head := [s[0]] + rest[0];
        assert Split(s, sep) == [head] + rest[1..];
        if |rest| == 1 {
          assert s == [s[0]] + s[1..];
        } else {
          assert ([head] + rest[1..])[1..] == rest[1..];
          assert Join(rest, sep) == rest[0] + [sep] + Join(rest[1..], sep);
          assert s == [s[0]] + s[1..];
        }
      }
    }
  }

  /** Splitting a string that starts with a separator-free prefix `a`:
      `a` is glued to the first piece of the rest. */
  lemma {:induction false} SplitPrefix(a: string, t: string, sep: char)
    requires sep !in a
    ensures Split(a + t, sep) == [a + Split(t, sep)[0]] + Split(t, sep)[1..]
    decreases |a|
  {
    if a != [] {
      var r := Split(t, sep);
      assert (a + t)[1..] == a[1..] + t;
      assert (a + t)[0] == a[0] != sep;
      SplitPrefix(a[1..], t, sep);
      var rest := Split(a[1..] + t, sep);
      assert rest[0] == a[1..] + r[0];
      assert rest[1..] == r[1..];
      assert [a[0]] + rest[0] == a + r[0] by {
        assert a == [a[0]] + a[1..];
      }
    } else {
      var r := Split(t, sep);
      assert a + t == t;
      assert r == [r[0]] + r[1..];
      assert a + r[0] == r[0];
    }
  }

  /** Joining separator-free pieces and splitting again gives the pieces
      back: `split` is a left inverse of `join` on such pieces. */
  lemma {:induction false} SplitJoin(segs: seq<string>, sep: char)
    requires |segs| >= 1
    requires forall seg <- segs :: sep !in seg
    ensures Split(Join(segs, sep), sep) == segs
    decreases |segs|
  {
    if |segs| == 1 {
      SplitPrefix(segs[0], "", sep);
      assert segs[0] + "" == segs[0];
    } else {
      var tail := Join(segs[1..], sep);
      SplitJoin(segs[1..], sep);
      assert Join(segs, sep) == segs[0] + ([sep] + tail);
      SplitPrefix(segs[0], [sep] + tail, sep);
      assert ([sep] + tail)[1..] == tail;
      assert Split([sep] + tail, sep) == [""] + segs[1..];
      assert segs[0] + "" == segs[0];
    }
  }

  /** A path segment that path normalisation keeps as it is. */
  predicate Ordinary(seg: string)
  {
    seg != "" && seg != "." && seg != ".." && '/' !in seg
  }

  /** One step of Node's POSIX segment normalisation: empty and "."
      segments vanish, ".." removes the previous segment (and is dropped
      at the root), anything else is appended. */
  function NormalizeStep(stack: seq<string>, seg: string): seq<string>
  {
    if seg == "" || seg == "." then stack
    else if seg == ".." then (if stack == [] then [] else stack[..|stack| - 1])
    else stack + [seg]
  }

  /** Normalises `segs` onto the already-normalised `stack`, left to right. */
  function Normalize(stack: seq<string>, segs: seq<string>): seq<string>
    decreases |segs|
  {
    if segs == [] then stack else Normalize(NormalizeStep(stack, segs[0]), segs[1..])
  }

  /** `path.resolve(dir, p)` on POSIX: an absolute `p` wins over `dir`;
      the result is absolute and normalised. */
  function Resolve(dir: string, p: string): string
  {
    if |p| > 0 && p[0] == '/' then NormalizePath(p) else NormalizePath(dir + "/" + p)
  }

  /** The absolute, normalised form of `path`. */
  function NormalizePath(path: string): string
  {
    "/" + Join(Normalize([], Split(path, '/')), '/')
  }

  /** Ordinary segments pass through normalisation unchanged. */
  lemma {:induction false} NormalizeOrdinary(stack: seq<string>, segs: seq<string>)
    requires forall seg <- segs :: Ordinary(seg)
    ensures Normalize(stack, segs) == stack + segs
    decreases |segs|
  {
    if segs != [] {
      assert Ordinary(segs[0]);
      NormalizeOrdinary(stack + [segs[0]], segs[1..]);
      assert stack + [segs[0]] + segs[1..] == stack + segs;
    }
  }

  /** An absolute path made of ordinary segments splits into an empty
      first piece followed by those segments. */
  lemma SplitAbsolute(segs: seq<string>)
    requires |segs| >= 1
    requires forall seg <- segs :: Ordinary(seg)
    ensures Split("/" + Join(segs, '/'), '/') == [""] + segs
  {
    var full := [""] + segs;
    assert full[1..] == segs;
    assert "/" + Join(segs, '/') == Join(full, '/');
    SplitJoin(full, '/');
  }

  /** Resolving an absolute path made of ordinary segments against any
      directory returns that path itself. */
  lemma ResolveAbsolute(dir: string, segs: seq<string>)
    requires |segs| >= 1
    requires forall seg <- segs :: Ordinary(seg)
    ensures Resolve(dir, "/" + Join(segs, '/')) == "/" + Join(segs, '/')
  {
    SplitAbsolute(segs);
    NormalizeOrdinary([], segs);
    assert ([""] + segs)[1..] == segs;
    assert Normalize([], [""] + segs) == segs;
  }
}
