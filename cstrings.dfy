/** The C-string conventions the gateway's byte routines rely on.
    A byte is modelled as the `char` with the same code; a C string is the
    run of characters from some index up to, not including, the first NUL.
    `strlen`, `strstr` and `strncmp` belong to the C library, so they are
    stated here as functions rather than as loops. */
module CStrings {

  datatype Option<+T> = None | Some(value: T)

  const NUL: char := '\0'

  /** Index of the first NUL at or after `i`, or |s| when there is none. */
  function NulFrom(s: seq<char>, i: nat): (k: nat)
    requires i <= |s|
    ensures i <= k <= |s|
    ensures k < |s| ==> s[k] == NUL
    decreases |s| - i
  {
    if i == |s| || s[i] == NUL then i else NulFrom(s, i + 1)
  }

  /** No NUL stands between `i` and the one `NulFrom` finds. */
  lemma {:induction false} NulFromSkips(s: seq<char>, i: nat)
    requires i <= |s|
    ensures forall j :: i <= j < NulFrom(s, i) ==> s[j] != NUL
    decreases |s| - i
  {
    if i < |s| && s[i] != NUL {
      NulFromSkips(s, i + 1);
    }
  }

  /** A NUL with none before it (from `i` on) is the one `NulFrom` finds. */
  lemma {:induction false} NulFromIs(s: seq<char>, i: nat, k: nat)
    requires i <= k <= |s|
    requires forall j :: i <= j < k ==> s[j] != NUL
    requires k < |s| ==> s[k] == NUL
    ensures NulFrom(s, i) == k
    decreases k - i
  {
    if i < k {
      NulFromIs(s, i + 1, k);
    }
  }

  /** The C string that `s + i` points to: what `strlen` measures and what
      `strstr` and `%s` read. */
  function StrAt(s: seq<char>, i: nat): (r: seq<char>)
    requires i <= |s|
    ensures i + |r| <= |s| && r == s[i..i + |r|]
    ensures i + |r| < |s| ==> s[i + |r|] == NUL
  {
    s[i..NulFrom(s, i)]
  }

  /** A C string holds no NUL. */
  lemma StrAtNoNul(s: seq<char>, i: nat)
    requires i <= |s|
    ensures forall j :: 0 <= j < |StrAt(s, i)| ==> StrAt(s, i)[j] != NUL
  {
    NulFromSkips(s, i);
  }

  /** A stretch that holds no NUL and is followed by one (or by the end)
      is exactly the C string at its start. */
  lemma StrAtIs(s: seq<char>, i: nat, k: nat)
    requires i <= k <= |s|
    requires forall j :: i <= j < k ==> s[j] != NUL
    requires k < |s| ==> s[k] == NUL
    ensures StrAt(s, i) == s[i..k]
  {
    NulFromIs(s, i, k);
  }

  /** Concatenation regrouped, stated for operands the solver need not look into. */
  lemma Regroup(a: seq<char>, b: seq<char>, c: seq<char>)
    ensures a + (b + c) == (a + b) + c
  {
  }

  /** `needle` starts at index k of `hay`. */
  predicate Occurs(hay: seq<char>, needle: seq<char>, k: nat)
  {
    k + |needle| <= |hay| && hay[k..k + |needle|] == needle
  }

  /** `needle` starts at index k of `hay`, compared one character at a time
      as `strstr` does. */
  predicate MatchAt(hay: seq<char>, needle: seq<char>, k: nat)
    decreases |needle|
  {
    if |needle| == 0 then k <= |hay|
    else k < |hay| && hay[k] == needle[0] && MatchAt(hay, needle[1..], k + 1)
  }

  lemma {:induction false} MatchAtOccurs(hay: seq<char>, needle: seq<char>, k: nat)
    ensures MatchAt(hay, needle, k) <==> Occurs(hay, needle, k)
    decreases |needle|
  {
    if |needle| > 0 {
      var tail := needle[1..];
      MatchAtOccurs(hay, tail, k + 1);
      if k + |needle| <= |hay| {
        var window := hay[k..k + |needle|];
        assert hay[k + 1..k + 1 + |tail|] == window[1..];
        if window == needle {
          assert window[1..] == tail;
        }
        if MatchAt(hay, needle, k) {
          assert window[0] == needle[0] && window[1..] == tail;
          assert window == [window[0]] + window[1..];
          assert needle == [needle[0]] + tail;
        }
      }
    }
  }

  /** `needle` starts nowhere in `hay` before index n. */
  predicate NoneBefore(hay: seq<char>, needle: seq<char>, n: nat)
  {
    forall j :: 0 <= j < n ==> !Occurs(hay, needle, j)
  }

  /** Whether `needle` starts at j does not depend on what follows a prefix
      that holds the whole window. */
  lemma OccursInPrefix(a: seq<char>, rest: seq<char>, needle: seq<char>, j: nat)
    requires j + |needle| <= |a|
    ensures Occurs(a + rest, needle, j) <==> Occurs(a, needle, j)
  {
    assert (a + rest)[j..j + |needle|] == a[j..j + |needle|];
  }

  /** In `front + needle + rest`, with no occurrence starting inside `front`,
      the first occurrence is right after `front`. */
  lemma FindAfterFront(front: seq<char>, needle: seq<char>, rest: seq<char>)
    requires NoneBefore(front + needle, needle, |front|)
    ensures Find(front + needle + rest, needle) == Some(|front|)
  {
    var a := front + needle;
    var s := a + rest;
    forall j | 0 <= j < |front| ensures !Occurs(s, needle, j) {
      OccursInPrefix(a, rest, needle, j);
    }
    assert s[|front|..|front| + |needle|] == needle;
    FindIs(s, needle, |front|);
  }

  /** `strstr(hay, needle)` from index k on: an occurrence, if any. */
  function FindFrom(hay: seq<char>, needle: seq<char>, k: nat): (r: Option<nat>)
    requires k <= |hay|
    ensures r.Some? ==> k <= r.value && Occurs(hay, needle, r.value)
    decreases |hay| - k
  {
    if k + |needle| > |hay| then None
    else
      MatchAtOccurs(hay, needle, k);
      if MatchAt(hay, needle, k) then Some(k) else FindFrom(hay, needle, k + 1)
  }

  /** `FindFrom` returns the first occurrence from k on, and None only when
      there is none. */
  lemma {:induction false} FindFromFirst(hay: seq<char>, needle: seq<char>, k: nat)
    requires k <= |hay|
    ensures FindFrom(hay, needle, k).Some? ==>
              forall j :: k <= j < FindFrom(hay, needle, k).value ==> !Occurs(hay, needle, j)
    ensures FindFrom(hay, needle, k).None? ==> forall j :: k <= j <= |hay| ==> !Occurs(hay, needle, j)
    decreases |hay| - k
  {
    if k + |needle| <= |hay| {
      MatchAtOccurs(hay, needle, k);
      if !MatchAt(hay, needle, k) {
        FindFromFirst(hay, needle, k + 1);
      }
    }
  }

  /** An occurrence at m with none in between is what `FindFrom` returns from k. */
  lemma {:induction false} FindFromIs(hay: seq<char>, needle: seq<char>, k: nat, m: nat)
    requires k <= m && Occurs(hay, needle, m)
    requires forall j :: k <= j < m ==> !Occurs(hay, needle, j)
    ensures FindFrom(hay, needle, k) == Some(m)
    decreases m - k
  {
    MatchAtOccurs(hay, needle, k);
    if k < m {
      FindFromIs(hay, needle, k + 1, m);
    }
  }

  /** `strstr(hay, needle)`: the index of the first occurrence of `needle`. */
  function Find(hay: seq<char>, needle: seq<char>): (r: Option<nat>)
    ensures r.Some? ==> Occurs(hay, needle, r.value)
  {
    FindFrom(hay, needle, 0)
  }

  /** `Find` returns the first occurrence, and None only when there is none. */
  lemma FindFirst(hay: seq<char>, needle: seq<char>)
    ensures Find(hay, needle).Some? ==> forall j :: 0 <= j < Find(hay, needle).value ==> !Occurs(hay, needle, j)
    ensures Find(hay, needle).None? ==> forall j :: 0 <= j <= |hay| ==> !Occurs(hay, needle, j)
  {
    FindFromFirst(hay, needle, 0);
  }

  /** An occurrence with none before it is what `Find` returns. */
  lemma FindIs(hay: seq<char>, needle: seq<char>, k: nat)
    requires Occurs(hay, needle, k)
    requires forall j :: 0 <= j < k ==> !Occurs(hay, needle, j)
    ensures Find(hay, needle) == Some(k)
  {
    FindFromIs(hay, needle, 0, k);
  }

  /** Nothing occurs in a string that lacks one of the needle's characters. */
  lemma FindNone(hay: seq<char>, needle: seq<char>, x: nat)
    requires x < |needle| && needle[x] !in hay
    ensures Find(hay, needle) == None
  {
  }

  /** The C string at i is the tail, from i, of the C string at 0. */
  lemma StrAtSuffix(s: seq<char>, i: nat)
    requires i <= |StrAt(s, 0)|
    ensures StrAt(s, i) == StrAt(s, 0)[i..]
  {
    StrAtNoNul(s, 0);
    StrAtIs(s, i, |StrAt(s, 0)|);
  }

  /** An occurrence is the first one when the needle's character at offset x
      stands nowhere an earlier occurrence would put it. */
  lemma FindFirstByChar(hay: seq<char>, needle: seq<char>, k: nat, x: nat)
    requires Occurs(hay, needle, k) && x < |needle|
    requires forall i :: x <= i < k + x ==> hay[i] != needle[x]
    ensures Find(hay, needle) == Some(k)
  {
    forall j | 0 <= j < k ensures !Occurs(hay, needle, j) {
      if j + |needle| <= |hay| {
        assert hay[j..j + |needle|][x] == hay[j + x];
      }
    }
    FindIs(hay, needle, k);
  }
}
