/// The two string helpers of the filesystem: `trim`, which strips the
/// characters " \t\n\r" from both ends, and `split`, which cuts a string at a
/// delimiter and keeps the trimmed, non-empty pieces.
module Strings {

  /** A character of the set " \t\n\r" that `trim` removes. */
  predicate IsSpace(c: char)
  {
    c == ' ' || c == '\t' || c == '\n' || c == '\r'
  }

  predicate AllSpace(s: string)
  {
    forall k :: 0 <= k < |s| ==> IsSpace(s[k])
  }

  /** Empty, or neither starting nor ending with a trimmed character. */
  predicate IsTrimmed(s: string)
  {
    s == [] || (!IsSpace(s[0]) && !IsSpace(s[|s| - 1]))
  }

  /** `find_first_not_of(" \t\n\r")`, with |s| standing for `npos`. */
  function FirstNonSpace(s: string): (i: nat)
    ensures i <= |s|
    ensures forall k :: 0 <= k < i ==> IsSpace(s[k])
    ensures i < |s| ==> !IsSpace(s[i])
  {
    if s == [] || !IsSpace(s[0]) then 0 else 1 + FirstNonSpace(s[1..])
  }

  /** One past `find_last_not_of(" \t\n\r")`, or 0 when there is none. */
  function EndNonSpace(s: string): (j: nat)
    ensures j <= |s|
    ensures forall k :: j <= k < |s| ==> IsSpace(s[k])
    ensures j > 0 ==> !IsSpace(s[j - 1])
  {
    if s == [] || !IsSpace(s[|s| - 1]) then |s| else EndNonSpace(s[..|s| - 1])
  }

  /** `trim`: the text between the first and the last character that is not
      a space, or "" when every character is one. */
  function Trim(s: string): (t: string)
    ensures IsTrimmed(t)
    ensures t == [] <==> AllSpace(s)
    ensures FirstNonSpace(s) + |t| <= |s|
    ensures t == s[FirstNonSpace(s)..FirstNonSpace(s) + |t|]
    ensures forall k :: FirstNonSpace(s) + |t| <= k < |s| ==> IsSpace(s[k])
  {
    var start := FirstNonSpace(s);
    if start == |s| then
      ""
    else
      var end := EndNonSpace(s);
      assert start < end;
      s[start..end]
  }

  /** `trim` keeps exactly the core of a string framed by spaces. */
  lemma {:induction false} TrimFramed(lead: string, t: string, trail: string)
    requires AllSpace(lead) && AllSpace(trail) && IsTrimmed(t)
    ensures Trim(lead + t + trail) == t
  {
    var s := lead + t + trail;
    var r := Trim(s);
    var i := FirstNonSpace(s);
    var e := |lead| + |t|;
    assert forall k :: 0 <= k < |lead| ==> IsSpace(s[k]);
    assert forall k :: e <= k < |s| ==> IsSpace(s[k]) by {
      forall k | e <= k < |s| ensures IsSpace(s[k]) {
        assert s[k] == trail[k - e];
      }
    }
    if t == [] {
      assert AllSpace(s);
    } else {
      assert s[|lead|] == t[0];
      assert s[e - 1] == t[|t| - 1];
      assert i == |lead|;
      assert r[|r| - 1] == s[i + |r| - 1];
      assert i + |r| == e;
      assert s[|lead|..e] == t;
    }
  }

  /** Trimming twice changes nothing more. */
  lemma TrimIdempotent(s: string)
    ensures Trim(Trim(s)) == Trim(s)
  {
    TrimFramed("", Trim(s), "");
    assert "" + Trim(s) + "" == Trim(s);
  }

  /** The text `std::getline` extracts in one call: everything up to, and
      not including, the first `delim` or the end. */
  function UpTo(s: string, delim: char): (p: string)
    ensures |p| <= |s| && p == s[..|p|] && delim !in p
    ensures |p| < |s| ==> s[|p|] == delim
  {
    if s == [] || s[0] == delim then ""
    else
      var rest := UpTo(s[1..], delim);
      assert [s[0]] + rest == s[..1 + |rest|];
      [s[0]] + rest
  }

  /** The successive results of `std::getline(stream, token, delim)` on a
      stream holding `s`: each call extracts up to the next `delim` and
      consumes it; a call that starts at the end of the stream fails. So the
      empty string gives no piece and a final `delim` no empty last piece. */
  function Extracted(s: string, delim: char): (ps: seq<string>)
    ensures forall k :: 0 <= k < |ps| ==> delim !in ps[k]
    decreases |s|
  {
    if s == [] then []
    else
      var p := UpTo(s, delim);
      if |p| == |s| then [p] else [p] + Extracted(s[|p| + 1..], delim)
  }

  /** Every piece between delimiters, empty ones included, and always one
      after the last delimiter: `Extracted` plus a trailing "" when `s` is
      empty or ends with `delim`. Easier to reason about than `Extracted`,
      and the same once empty pieces are dropped (`ExtractedTokens`). */
  function Pieces(s: string, delim: char): (ps: seq<string>)
    ensures |ps| >= 1
    ensures forall k :: 0 <= k < |ps| ==> delim !in ps[k]
  {
    if s == [] then [""]
    else
      var rest := Pieces(s[1..], delim);
      if s[0] == delim then [""] + rest
      else [[s[0]] + rest[0]] + rest[1..]
  }

  /** The pieces joined back with the delimiter. */
  function JoinWith(ps: seq<string>, delim: char): string
    requires |ps| >= 1
  {
    if |ps| == 1 then ps[0] else ps[0] + [delim] + JoinWith(ps[1..], delim)
  }

  /** Cutting loses nothing: the pieces joined at the delimiter give `s` back. */
  lemma {:induction false} PiecesJoin(s: string, delim: char)
    ensures JoinWith(Pieces(s, delim), delim) == s
  {
    if s != [] {
      var rest := Pieces(s[1..], delim);
      PiecesJoin(s[1..], delim);
      if s[0] != delim && |rest| > 1 {
        assert ([s[0]] + rest[0]) + [delim] + JoinWith(rest[1..], delim)
            == [s[0]] + (rest[0] + [delim] + JoinWith(rest[1..], delim));
      }
      assert s == [s[0]] + s[1..];
    }
  }

  lemma {:induction false} PiecesOfPlain(a: string, delim: char)
    requires delim !in a
    ensures Pieces(a, delim) == [a]
  {
    if a != [] {
      PiecesOfPlain(a[1..], delim);
      assert a == [a[0]] + a[1..];
    }
  }

  /** Cutting after a delimiter-free prefix. */
  lemma {:induction false} PiecesCut(a: string, b: string, delim: char)
    requires delim !in a
    ensures Pieces(a + [delim] + b, delim) == [a] + Pieces(b, delim)
  {
    var s := a + [delim] + b;
    if a == [] {
      assert s[1..] == b;
    } else {
      assert s[1..] == a[1..] + [delim] + b;
      PiecesCut(a[1..], b, delim);
      assert [a[0]] + a[1..] == a;
    }
  }

  /** Joining delimiter-free pieces and cutting again gives the pieces back. */
  lemma {:induction false} PiecesOfJoin(ps: seq<string>, delim: char)
    requires |ps| >= 1
    requires forall k :: 0 <= k < |ps| ==> delim !in ps[k]
    ensures Pieces(JoinWith(ps, delim), delim) == ps
  {
    if |ps| == 1 {
      PiecesOfPlain(ps[0], delim);
    } else {
      PiecesOfJoin(ps[1..], delim);
      PiecesCut(ps[0], JoinWith(ps[1..], delim), delim);
      assert ps == [ps[0]] + ps[1..];
    }
  }

  /** The body of the `split` loop for one piece: kept trimmed, dropped if empty. */
  function Keep(piece: string): seq<string>
  {
    if Trim(piece) == "" then [] else [Trim(piece)]
  }

  /** Every piece, in order, through the body of the `split` loop. */
  function KeepAll(ps: seq<string>): (ts: seq<string>)
    ensures forall k :: 0 <= k < |ts| ==> ts[k] != "" && IsTrimmed(ts[k])
  {
    if ps == [] then [] else Keep(ps[0]) + KeepAll(ps[1..])
  }

  /** Tokens hold no character that no piece held. */
  lemma {:induction false} KeepAllAvoids(ps: seq<string>, c: char)
    requires forall k :: 0 <= k < |ps| ==> c !in ps[k]
    ensures forall k :: 0 <= k < |KeepAll(ps)| ==> c !in KeepAll(ps)[k]
  {
    if ps != [] {
      TrimInside(ps[0], c);
      KeepAllAvoids(ps[1..], c);
    }
  }

  /** A trimmed piece holds no character that the piece did not. */
  lemma TrimInside(s: string, c: char)
    requires c !in s
    ensures c !in Trim(s)
  {
    var t := Trim(s);
    var i := FirstNonSpace(s);
    forall k | 0 <= k < |t| ensures t[k] != c {
      assert t[k] == s[i + k];
    }
  }

  lemma {:induction false} KeepAllAppend(a: seq<string>, b: seq<string>)
    ensures KeepAll(a + b) == KeepAll(a) + KeepAll(b)
  {
    if a == [] {
      assert a + b == b;
    } else {
      assert (a + b)[1..] == a[1..] + b;
      KeepAllAppend(a[1..], b);
    }
  }

  lemma KeepAllSnoc(ps: seq<string>, i: nat)
    requires i < |ps|
    ensures Trim(ps[i]) == "" ==> KeepAll(ps[..i + 1]) == KeepAll(ps[..i])
    ensures Trim(ps[i]) != "" ==> KeepAll(ps[..i + 1]) == KeepAll(ps[..i]) + [Trim(ps[i])]
  {
    var done, next := ps[..i], [ps[i]];
    assert ps[..i + 1] == done + next;
    KeepAllAppend(done, next);
    KeepAllSingle(ps[i]);
  }

  lemma KeepAllSingle(piece: string)
    ensures KeepAll([piece]) == Keep(piece)
  {
    assert [piece][1..] == [];
  }

  /** What `split(s, delim)` returns: the pieces between delimiters, trimmed,
      the empty ones dropped. */
  function Tokens(s: string, delim: char): seq<string>
  {
    KeepAll(Pieces(s, delim))
  }

  /** `getline` and `Pieces` differ only in a trailing empty piece. */
  lemma {:induction false} PiecesExtracted(s: string, delim: char)
    ensures Pieces(s, delim) == Extracted(s, delim) + (if s == [] || s[|s| - 1] == delim then [""] else [])
    decreases |s|
  {
    if s != [] {
      var p := UpTo(s, delim);
      if |p| == |s| {
        assert p == s;
        PiecesOfPlain(s, delim);
        assert s[|s| - 1] in p;
      } else {
        var rest := s[|p| + 1..];
        assert s == p + [delim] + rest;
        PiecesCut(p, rest, delim);
        PiecesExtracted(rest, delim);
        if rest != [] {
          assert s[|s| - 1] == rest[|rest| - 1];
        }
      }
    }
  }

  /** A final delimiter ends the last piece and starts no empty one. */
  lemma ExtractedFinalDelimiter(a: string, delim: char)
    requires delim !in a
    ensures Extracted(a + [delim], delim) == [a]
    ensures Pieces(a + [delim], delim) == [a, ""]
  {
    var s := a + [delim];
    assert s == a + [delim] + "";
    UpToFirst(a, "", delim);
    assert s[|a| + 1..] == [];
    PiecesCut(a, "", delim);
  }

  lemma {:induction false} UpToFirst(a: string, b: string, delim: char)
    requires delim !in a
    ensures UpTo(a + [delim] + b, delim) == a
  {
    var s := a + [delim] + b;
    if a != [] {
      assert s[0] == a[0];
      assert s[1..] == a[1..] + [delim] + b;
      UpToFirst(a[1..], b, delim);
      assert [a[0]] + a[1..] == a;
    }
  }

  /** Dropping the empty pieces, `getline`'s pieces give the same tokens. */
  lemma ExtractedTokens(s: string, delim: char)
    ensures KeepAll(Extracted(s, delim)) == Tokens(s, delim)
  {
    PiecesExtracted(s, delim);
    var tail: seq<string> := if s == [] || s[|s| - 1] == delim then [""] else [];
    KeepAllAppend(Extracted(s, delim), tail);
    if tail == [""] {
      KeepAllSingle("");
      assert Trim("") == "";
    }
    assert Extracted(s, delim) + tail == Pieces(s, delim);
  }

  /** The `getline` loop of `split`. */
  method Split(s: string, delim: char) returns (tokens: seq<string>)
    ensures tokens == Tokens(s, delim)
  {
    var pieces := Extracted(s, delim);
    tokens := [];
    var i := 0;
    while i < |pieces|
      invariant 0 <= i <= |pieces|
      invariant tokens == KeepAll(pieces[..i])
    {
      var token := Trim(pieces[i]);
      KeepAllSnoc(pieces, i);
      if token != "" {
        tokens := tokens + [token];
      }
      i := i + 1;
    }
    assert pieces[..i] == pieces;
    ExtractedTokens(s, delim);
  }

  /** No token is empty, holds the delimiter, or has whitespace at either end. */
  lemma TokensShape(s: string, delim: char)
    ensures forall k :: 0 <= k < |Tokens(s, delim)| ==>
      Tokens(s, delim)[k] != "" && IsTrimmed(Tokens(s, delim)[k]) && delim !in Tokens(s, delim)[k]
  {
    KeepAllAvoids(Pieces(s, delim), delim);
  }

  /** The tokens of a path: none empty, none holding a '/', each already trimmed. */
  lemma TokensOfPath(s: string)
    ensures forall k :: 0 <= k < |Tokens(s, '/')| ==>
      Tokens(s, '/')[k] != "" && '/' !in Tokens(s, '/')[k] && Trim(Tokens(s, '/')[k]) == Tokens(s, '/')[k]
  {
    var ts := Tokens(s, '/');
    TokensShape(s, '/');
    forall k | 0 <= k < |ts| ensures Trim(ts[k]) == ts[k] {
      TrimFramed("", ts[k], "");
      assert "" + ts[k] + "" == ts[k];
    }
  }

  /** Splitting the join of non-empty, trimmed, delimiter-free tokens gives
      the tokens back. */
  lemma {:induction false} TokensOfJoin(ts: seq<string>, delim: char)
    requires |ts| >= 1
    requires forall k :: 0 <= k < |ts| ==> ts[k] != "" && IsTrimmed(ts[k]) && delim !in ts[k]
    ensures Tokens(JoinWith(ts, delim), delim) == ts
  {
    PiecesOfJoin(ts, delim);
    KeepAllOfTrimmed(ts);
  }

  lemma {:induction false} KeepAllOfTrimmed(ts: seq<string>)
    requires forall k :: 0 <= k < |ts| ==> ts[k] != "" && IsTrimmed(ts[k])
    ensures KeepAll(ts) == ts
  {
    if ts != [] {
      TrimFramed("", ts[0], "");
      assert "" + ts[0] + "" == ts[0];
      KeepAllOfTrimmed(ts[1..]);
      assert ts == [ts[0]] + ts[1..];
    }
  }
}
