/** The name in the PARTISN title: the last '/'-separated component of the geometry
    file path, cut at its first '.'. */
module Title {

  /** The position of the first occurrence of c in s. */
  function IndexOfChar(s: string, c: char): (i: nat)
    requires c in s
    ensures i < |s| && s[i] == c && c !in s[..i]
  {
    if s[0] == c then 0
    else
      var j := IndexOfChar(s[1..], c);
      assert s[..j + 1] == [s[0]] + s[1..][..j];
      j + 1
  }

  /** String splitting on a one-character separator, as Python's str.split does it:
      the pieces between separators, the empty ones included; never an empty list. */
  function Split(s: string, c: char): (parts: seq<string>)
    ensures |parts| >= 1
    decreases |s|
  {
    if c !in s then [s]
    else
      var i := IndexOfChar(s, c);
      [s[..i]] + Split(s[i + 1..], c)
  }

  /** Joining the pieces with the separator between them. */
  function Join(parts: seq<string>, c: char): string
    requires |parts| >= 1
  {
    if |parts| == 1 then parts[0] else parts[0] + [c] + Join(parts[1..], c)
  }

  /** Splitting loses nothing: joining the pieces back gives the string, and no piece
      holds the separator. */
  lemma {:induction false} SplitJoin(s: string, c: char)
    ensures Join(Split(s, c), c) == s
    ensures forall k :: 0 <= k < |Split(s, c)| ==> c !in Split(s, c)[k]
    decreases |s|
  {
    if c in s {
      var i := IndexOfChar(s, c);
      SplitJoin(s[i + 1..], c);
      assert Split(s, c)[1..] == Split(s[i + 1..], c);
      assert s == s[..i] + [c] + s[i + 1..];
    }
  }

  /** The first piece is the prefix of s before the first separator, or all of s. */
  lemma FirstPiece(s: string, c: char)
    ensures var p := Split(s, c)[0];
      && p <= s && c !in p
      && (p == s || s[|p|] == c)
  {
  }

  function Last(parts: seq<string>): string
    requires |parts| >= 1
  {
    parts[|parts| - 1]
  }

  /** p is the suffix of s after its last c, or all of s when it holds no c. */
  predicate IsLastPiece(s: string, c: char, p: string) {
    && |p| <= |s| && p == s[|s| - |p|..] && c !in p
    && (p == s || s[|s| - |p| - 1] == c)
  }

  /** Past the first separator, the last piece is the last piece of the rest. */
  lemma {:induction false} LastOfRest(s: string, c: char)
    requires c in s
    ensures Last(Split(s, c)) == Last(Split(s[IndexOfChar(s, c) + 1..], c))
  {
    var i := IndexOfChar(s, c);
    var rest := Split(s[i + 1..], c);
    var parts := Split(s, c);
    assert parts == [s[..i]] + rest;
    assert |parts| == |rest| + 1;
    assert parts[|rest|] == rest[|rest| - 1];
  }

  /** p, the last piece of the part of s after position i, is the last piece of s. */
  lemma {:induction false} LastPieceShift(s: string, c: char, i: nat, p: string)
    requires i < |s| && s[i] == c && IsLastPiece(s[i + 1..], c, p)
    ensures IsLastPiece(s, c, p)
  {
    var t := s[i + 1..];
    assert s[|s| - |p|..] == t[|t| - |p|..];
    if p == t {
      assert s[|s| - |p| - 1] == s[i];
    } else {
      assert s[|s| - |p| - 1] == t[|t| - |p| - 1];
    }
  }

  /** The last piece is the suffix of s after the last separator, or all of s. */
  lemma {:induction false} LastPiece(s: string, c: char)
    ensures IsLastPiece(s, c, Last(Split(s, c)))
    decreases |s|
  {
    if c in s {
      var i := IndexOfChar(s, c);
      LastPiece(s[i + 1..], c);
      LastOfRest(s, c);
      LastPieceShift(s, c, i, Last(Split(s, c)));
    } else {
      assert s[0..] == s;
    }
  }

  /** The last component of the path: everything after its last '/'. */
  function LastComponent(path: string): string {
    Last(Split(path, '/'))
  }

  /** The title name, by the two branches of the source: with a '/' in the path, the
      last component cut at its first '.'; without one, the path cut at its first '.'. */
  function Name(path: string): (name: string)
    ensures '/' !in name && '.' !in name
  {
    LastPiece(path, '/');
    FirstPiece(LastComponent(path), '.');
    FirstPiece(path, '.');
    if '/' in path then Split(LastComponent(path), '.')[0]
    else Split(path, '.')[0]
  }

  /** Without a '/', the path is its own last component, so the branches agree. */
  lemma BranchesAgree(path: string)
    ensures Name(path) == Split(LastComponent(path), '.')[0]
  {
  }

  /** The name is the part of the path's last component before its first '.': a prefix
      of that component, ending at a '.' or at the end, holding neither '/' nor '.'. */
  lemma NameMeaning(path: string)
    ensures var last := LastComponent(path);
      && |last| <= |path| && last == path[|path| - |last|..] && '/' !in last
      && (last == path || path[|path| - |last| - 1] == '/')
      && Name(path) <= last
      && (Name(path) == last || last[|Name(path)|] == '.')
      && '/' !in Name(path) && '.' !in Name(path)
  {
    var last := LastComponent(path);
    LastPiece(path, '/');
    BranchesAgree(path);
    FirstPiece(last, '.');
    var name := Name(path);
    assert forall i :: 0 <= i < |name| ==> name[i] == last[i];
  }
}
