/** The hashes that are read out of store paths and archive urls. */
module PathNames {
  /** The part of `s` after its last `c`, or all of `s`. */
  function AfterLast(s: string, c: char): string {
    if s == [] then []
    else if s[|s| - 1] == c then []
    else AfterLast(s[..|s| - 1], c) + [s[|s| - 1]]
  }

  /** The part of `s` before its first `c`, or all of `s`. */
  function BeforeFirst(s: string, c: char): string {
    if s == [] || s[0] == c then [] else [s[0]] + BeforeFirst(s[1..], c)
  }

  /** The hash part of "/nix/store/<hash>-<name>". */
  function HashPart(path: string): string { BeforeFirst(AfterLast(path, '/'), '-') }

  /** The path hash in "nar/<hash>.nar". */
  function NarPathHash(filePath: string): string { BeforeFirst(AfterLast(filePath, '/'), '.') }

  lemma {:induction false} AfterLastOfTail(a: string, b: string, c: char)
    requires c !in b
    ensures AfterLast(a + b, c) == AfterLast(a, c) + b
    decreases |b|
  {
    if b == [] {
      assert a + b == a;
    } else {
      var n := |b| - 1;
      assert (a + b)[..|a + b| - 1] == a + b[..n];
      AfterLastOfTail(a, b[..n], c);
      assert b == b[..n] + [b[n]];
    }
  }

  lemma {:induction false} AfterLastOfHead(a: string, b: string, c: char)
    requires a != [] && a[|a| - 1] == c
    ensures AfterLast(a + b, c) == AfterLast(b, c)
    decreases |b|
  {
    if b == [] {
      assert a + b == a;
    } else {
      assert (a + b)[..|a + b| - 1] == a + b[..|b| - 1];
      AfterLastOfHead(a, b[..|b| - 1], c);
    }
  }

  lemma {:induction false} BeforeFirstOf(a: string, b: string, c: char)
    requires b != [] && b[0] == c
    ensures BeforeFirst(a + b, c) == BeforeFirst(a, c)
  {
    if a == [] {
      assert a + b == b;
    } else {
      assert (a + b)[1..] == a[1..] + b;
      BeforeFirstOf(a[1..], b, c);
    }
  }

  lemma {:induction false} AfterLastIsAll(s: string, c: char)
    ensures AfterLast(s, c) == s <==> c !in s
    ensures |AfterLast(s, c)| <= |s| && c !in AfterLast(s, c)
  {
    if s != [] {
      AfterLastIsAll(s[..|s| - 1], c);
      assert s == s[..|s| - 1] + [s[|s| - 1]];
    }
  }

  lemma {:induction false} BeforeFirstIsAll(s: string, c: char)
    ensures BeforeFirst(s, c) == s <==> c !in s
    ensures BeforeFirst(s, c) <= s
  {
    if s != [] {
      BeforeFirstIsAll(s[1..], c);
      assert s == [s[0]] + s[1..];
    }
  }

  /** `path` is a directory, `h`, and what follows the first `c` of the last component. */
  ghost predicate Splits(path: string, c: char, dir: string, h: string, rest: string) {
    && path == dir + (h + rest)
    && (dir == "" || dir[|dir| - 1] == '/') && '/' !in h + rest
    && c !in h && (rest == "" || rest[0] == c)
  }

  lemma SplitIsPart(path: string, c: char, dir: string, h: string, rest: string)
    requires Splits(path, c, dir, h, rest)
    ensures BeforeFirst(AfterLast(path, '/'), c) == h
  {
    AfterLastIsAll(h + rest, '/');
    if dir == "" {
      assert path == h + rest;
    } else {
      AfterLastOfHead(dir, h + rest, '/');
    }
    BeforeFirstIsAll(h, c);
    if rest == "" {
      assert h + rest == h;
    } else {
      BeforeFirstOf(h, rest, c);
    }
  }

  lemma PartSplits(path: string, c: char) returns (dir: string, rest: string)
    ensures Splits(path, c, dir, BeforeFirst(AfterLast(path, '/'), c), rest)
  {
    var last := AfterLast(path, '/');
    AfterLastIsAll(path, '/');
    BeforeFirstIsAll(last, c);
    dir := AfterLastSplits(path, '/');
    rest := BeforeFirstSplits(last, c);
  }

  lemma {:induction false} AfterLastSplits(s: string, c: char) returns (dir: string)
    ensures s == dir + AfterLast(s, c) && (dir == "" || dir[|dir| - 1] == c)
  {
    if s == "" || s[|s| - 1] == c {
      dir := s;
    } else {
      dir := AfterLastSplits(s[..|s| - 1], c);
      assert s == s[..|s| - 1] + [s[|s| - 1]];
    }
  }

  lemma {:induction false} BeforeFirstSplits(s: string, c: char) returns (rest: string)
    ensures s == BeforeFirst(s, c) + rest && (rest == "" || rest[0] == c) && c !in BeforeFirst(s, c)
  {
    if s == "" || s[0] == c {
      rest := s;
    } else {
      rest := BeforeFirstSplits(s[1..], c);
      assert BeforeFirst(s, c) == [s[0]] + BeforeFirst(s[1..], c);
      assert s == [s[0]] + s[1..] == [s[0]] + (BeforeFirst(s[1..], c) + rest);
    }
  }

  /** The hash of any string read as a store path: its last component up to the first dash. */
  lemma HashPartExact(path: string, h: string)
    ensures HashPart(path) == h <==> exists dir, rest :: Splits(path, '-', dir, h, rest)
  {
    var dir, rest := PartSplits(path, '-');
    if dir, rest :| Splits(path, '-', dir, h, rest) {
      SplitIsPart(path, '-', dir, h, rest);
    }
  }

  /** The hash of any string read as an archive url: its last component up to the first dot. */
  lemma NarPathHashExact(path: string, h: string)
    ensures NarPathHash(path) == h <==> exists dir, rest :: Splits(path, '.', dir, h, rest)
  {
    var dir, rest := PartSplits(path, '.');
    if dir, rest :| Splits(path, '.', dir, h, rest) {
      SplitIsPart(path, '.', dir, h, rest);
    }
  }

  lemma StorePathHash(dir: string, h: string, name: string)
    requires '/' !in h && '-' !in h && '/' !in name
    ensures HashPart(dir + "/" + h + "-" + name) == h
  {
    var path := dir + "/" + h + "-" + name;
    assert path == (dir + "/") + (h + ("-" + name));
    SplitIsPart(path, '-', dir + "/", h, "-" + name);
  }
}
