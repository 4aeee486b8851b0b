/** Request lines cut into words: asc_tokenize and the loops over many keys in
    mc_ascii.c. A position in the line stands for a pointer into it, and the length of
    the line is the position of the terminating NUL. */
module Tokenizer {
  import opened Bytes

  const SPACE: Byte := 32
  const TOKEN_MAX := 16
  const KEY_MAX_LEN := 250

  datatype Word = Word(start: nat, len: nat)

  /** A longest stretch of s without a space, at or after from. */
  ghost predicate Maximal(s: Bytes, from: nat, w: Word) {
    && from <= w.start && 0 < w.len && w.start + w.len <= |s|
    && (forall p :: w.start <= p < w.start + w.len ==> s[p] != SPACE)
    && (w.start == from || s[w.start-1] == SPACE)
    && (w.start + w.len == |s| || s[w.start + w.len] == SPACE)
  }

  ghost predicate Covered(ws: seq<Word>, p: nat) {
    exists i :: 0 <= i < |ws| && ws[i].start <= p < ws[i].start + ws[i].len
  }

  /** ws are the longest words of s[from..upto], all of them and in order. */
  ghost predicate Words(s: Bytes, from: nat, upto: nat, ws: seq<Word>) {
    && from <= upto <= |s|
    && (forall i :: 0 <= i < |ws| ==> Maximal(s, from, ws[i]) && ws[i].start + ws[i].len <= upto)
    && (forall i, j :: 0 <= i < j < |ws| ==> ws[i].start + ws[i].len < ws[j].start)
    && (forall p :: from <= p < upto && s[p] != SPACE ==> Covered(ws, p))
  }

  lemma CoveredMore(ws: seq<Word>, more: seq<Word>, p: nat)
    requires Covered(ws, p) || Covered(more, p)
    ensures Covered(ws + more, p)
  {
    if Covered(ws, p) {
      var i :| 0 <= i < |ws| && ws[i].start <= p < ws[i].start + ws[i].len;
      assert (ws + more)[i] == ws[i];
    } else {
      var i :| 0 <= i < |more| && more[i].start <= p < more[i].start + more[i].len;
      assert (ws + more)[|ws| + i] == more[i];
    }
  }

  /** The words of two adjoining stretches, when a space (or the start of the line)
      separates them, are the words of the whole. */
  lemma WordsConcat(s: Bytes, from: nat, mid: nat, upto: nat, ws: seq<Word>, more: seq<Word>)
    requires Words(s, from, mid, ws) && Words(s, mid, upto, more)
    requires mid == from || s[mid-1] == SPACE
    ensures Words(s, from, upto, ws + more)
  {
    var all := ws + more;
    forall p | from <= p < upto && s[p] != SPACE ensures Covered(all, p) {
      CoveredMore(ws, more, p);
    }
    forall i, j | 0 <= i < j < |all| ensures all[i].start + all[i].len < all[j].start {
      if i < |ws| <= j {
        assert Maximal(s, from, ws[i]) && Maximal(s, mid, more[j - |ws|]);
        EndsBefore(s, from, mid, ws[i]);
      }
    }
    forall i | 0 <= i < |all| ensures Maximal(s, from, all[i]) && all[i].start + all[i].len <= upto {
    }
  }

  lemma EndsBefore(s: Bytes, from: nat, mid: nat, w: Word)
    requires from <= mid <= |s| && Maximal(s, from, w) && w.start + w.len <= mid
    requires mid == from || s[mid-1] == SPACE
    ensures w.start + w.len < mid
  {
  }

  lemma MaximalUnique(s: Bytes, from: nat, w: Word, w': Word, p: nat)
    requires Maximal(s, from, w) && Maximal(s, from, w')
    requires w.start <= p < w.start + w.len && w'.start <= p < w'.start + w'.len
    ensures w == w'
  {
  }

  /** Each word of one complete list is in the other. */
  lemma Found(s: Bytes, from: nat, upto: nat, ws: seq<Word>, ws': seq<Word>, i: nat) returns (j: nat)
    requires Words(s, from, upto, ws) && Words(s, from, upto, ws') && i < |ws|
    ensures j < |ws'| && ws'[j] == ws[i]
  {
    var p := ws[i].start;
    assert Maximal(s, from, ws[i]) && s[p] != SPACE && Covered(ws', p);
    j :| 0 <= j < |ws'| && ws'[j].start <= p < ws'[j].start + ws'[j].len;
    MaximalUnique(s, from, ws[i], ws'[j], p);
  }

  lemma SameNext(s: Bytes, from: nat, upto: nat, ws: seq<Word>, ws': seq<Word>, n: nat)
    requires Words(s, from, upto, ws) && Words(s, from, upto, ws') && n < |ws|
    requires n <= |ws'| && forall i :: 0 <= i < n ==> ws[i] == ws'[i]
    ensures n < |ws'| && ws'[n] == ws[n]
  {
    var j := Found(s, from, upto, ws, ws', n);
    assert j >= n;
    if j > n {
      var k := Found(s, from, upto, ws', ws, n);
    }
  }

  /** Two lists of all the words, in order, are the same list. */
  lemma WordsUnique(s: Bytes, from: nat, upto: nat, ws: seq<Word>, ws': seq<Word>)
    requires Words(s, from, upto, ws) && Words(s, from, upto, ws')
    ensures ws == ws'
  {
    var n := 0;
    while n < |ws|
      invariant n <= |ws| && n <= |ws'| && forall i :: 0 <= i < n ==> ws[i] == ws'[i]
    {
      SameNext(s, from, upto, ws, ws', n);
      n := n + 1;
    }
    if n < |ws'| {
      SameNext(s, from, upto, ws', ws, n);
    }
  }

  // ---- asc_tokenize ----------------------------------------------------------------

  /** A token's position and length; the last one has length zero, and a position only
      if the line is not used up. */
  datatype Token = Token(val: Option<nat>, len: nat)

  /** What a call leaves in the token array: the words up to where it stopped, and the
      end marker. It stops early only with a full array, just after a space. */
  ghost predicate Tokenized(s: Bytes, from: nat, max: nat, token: seq<Token>, ws: seq<Word>, next: nat) {
    && 1 < max <= |token| && |ws| < max && Words(s, from, next, ws)
    && (forall i :: 0 <= i < |ws| ==> token[i] == Token(Some(ws[i].start), ws[i].len))
    && token[|ws|] == Token(if next == |s| then None else Some(next), 0)
    && (next < |s| ==> |ws| == max - 1 && from < next && s[next-1] == SPACE)
  }

  lemma WordsSnoc(s: Bytes, from: nat, start: nat, end: nat, ws: seq<Word>)
    requires Words(s, from, start, ws) && start < end <= |s| && (start == from || s[start-1] == SPACE)
    requires (forall p :: start <= p < end ==> s[p] != SPACE) && (end == |s| || s[end] == SPACE)
    ensures Words(s, from, end, ws + [Word(start, end - start)])
  {
    var w := Word(start, end - start);
    forall p | start <= p < end && s[p] != SPACE ensures Covered([w], p) {
      assert [w][0].start <= p < [w][0].start + [w][0].len;
    }
    WordsConcat(s, from, start, end, ws, [w]);
  }

  lemma WordsPastSpace(s: Bytes, from: nat, e: nat, ws: seq<Word>)
    requires Words(s, from, e, ws) && e < |s| && s[e] == SPACE
    ensures Words(s, from, e + 1, ws)
  {
  }

  /** asc_tokenize */
  method Tokenize(s: Bytes, from: nat, token: array<Token>, max: nat)
    returns (ntoken: nat, ghost ws: seq<Word>, ghost next: nat)
    requires from <= |s| && 1 < max <= token.Length
    modifies token
    ensures Tokenized(s, from, max, token[..], ws, next) && ntoken == |ws| + 1
  {
    var start, e := from, from;
    ntoken, ws := 0, [];
    while ntoken < max - 1
      invariant from <= start <= e <= |s| && ntoken == |ws| < max
      invariant start == from || s[start-1] == SPACE
      invariant forall p :: start <= p < e ==> s[p] != SPACE
      invariant Words(s, from, start, ws)
      invariant forall i :: 0 <= i < |ws| ==> token[i] == Token(Some(ws[i].start), ws[i].len)
      invariant ntoken == max - 1 ==> start == e && from < e
      decreases |s| - e
    {
      if e == |s| {
        if start != e {
          WordsSnoc(s, from, start, e, ws);
          token[ntoken] := Token(Some(start), e - start);
          ntoken, ws := ntoken + 1, ws + [Word(start, e - start)];
        }
        start := e;
        break;
      }
      if s[e] == SPACE {
        if start != e {
          WordsSnoc(s, from, start, e, ws);
          token[ntoken] := Token(Some(start), e - start);
          ntoken, ws := ntoken + 1, ws + [Word(start, e - start)];
        }
        WordsPastSpace(s, from, e, ws);
        start := e + 1;
      }
      e := e + 1;
    }
    next := e;
    token[ntoken] := Token(if e == |s| then None else Some(e), 0);
    ntoken := ntoken + 1;
  }

  // ---- Many keys -------------------------------------------------------------------

  /** The keys visited: all the words from the first key on, or those before the first
      that is too long. */
  ghost predicate Visited(all: seq<Word>, first: nat, keys: seq<Word>, ok: bool) {
    && first + |keys| <= |all| && keys == all[first..first + |keys|]
    && (forall i :: 0 <= i < |keys| ==> keys[i].len <= KEY_MAX_LEN)
    && if ok then first + |keys| == |all| else first + |keys| < |all| && all[first + |keys|].len > KEY_MAX_LEN
  }

  /** The inner loop: the words left in the token array. */
  method VisitTokens(token: array<Token>, k: nat, ghost ws: seq<Word>) returns (ok: bool, keys: seq<Word>, i: nat)
    requires k <= |ws| < token.Length && token[|ws|].len == 0
    requires forall i :: 0 <= i < |ws| ==> token[i] == Token(Some(ws[i].start), ws[i].len) && ws[i].len > 0
    ensures Visited(ws, k, keys, ok) && (ok ==> i == |ws|)
  {
    keys, i := [], k;
    while token[i].len != 0
      invariant k <= i <= |ws| && keys == ws[k..i]
      invariant forall j :: 0 <= j < |keys| ==> keys[j].len <= KEY_MAX_LEN
      decreases |ws| - i
    {
      if token[i].len > KEY_MAX_LEN {
        return false, keys, i;
      }
      keys := keys + [Word(token[i].val.value, token[i].len)];
      i := i + 1;
    }
    ok := true;
  }

  lemma VisitedMore(all: seq<Word>, first: nat, keys: seq<Word>, ws: seq<Word>, more: seq<Word>, ok: bool)
    requires Visited(all, first, keys, true) && Visited(ws, 0, more, ok)
    ensures Visited(all + ws, first, keys + more, ok)
  {
    var n := first + |keys| + |more|;
    assert (all + ws)[first..n] == all[first..] + ws[..|more|];
  }

  /** asc_process_read's loop over keys, and the like: it visits every word of the line
      from the first key on, however often the token array has to be filled again,
      and stops only at a key that is too long. */
  method VisitKeys(s: Bytes, token: array<Token>, first: nat, ghost ws: seq<Word>, ghost next: nat)
    returns (ok: bool, keys: seq<Word>, ghost all: seq<Word>, ghost upto: nat)
    requires token.Length == TOKEN_MAX && Tokenized(s, 0, TOKEN_MAX, token[..], ws, next) && first <= |ws|
    modifies token
    ensures Words(s, 0, upto, all) && (upto < |s| ==> 0 < upto && s[upto-1] == SPACE)
    ensures Visited(all, first, keys, ok) && (ok ==> upto == |s|)
  {
    var k: nat;
    ok, keys, k := VisitTokens(token, first, ws);
    all, upto := ws, next;
    while ok && token[k].val.Some?
      invariant Words(s, 0, upto, all) && (upto < |s| ==> 0 < upto && s[upto-1] == SPACE)
      invariant Visited(all, first, keys, ok)
      invariant ok ==> k < token.Length && token[k].val == if upto == |s| then None else Some(upto)
      decreases |s| - upto, ok
    {
      var from, more := token[k].val.value, [];
      ghost var ws', next';
      k, ws', next' := Tokenize(s, from, token, TOKEN_MAX);
      ok, more, k := VisitTokens(token, 0, ws');
      WordsConcat(s, 0, from, next', all, ws');
      VisitedMore(all, first, keys, ws', more, ok);
      keys, all, upto := keys + more, all + ws', next';
    }
  }
}
