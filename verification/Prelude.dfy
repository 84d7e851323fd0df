/** Option and Result, and the byte and text types shared by the chain and the API. */
module Prelude {

  datatype Option<+T> = None | Some(value: T)

  datatype Result<+T, +E> = Ok(value: T) | Err(error: E)

  type Byte = b: int | 0 <= b < 0x100
  type Bytes = seq<Byte>

  /** JavaScript text: a sequence of UTF-16 code units. */
  type CodeUnit = u: int | 0 <= u < 0x1_0000
  type JsString = seq<CodeUnit>

  /** An account is named by its SS58 address, which is never empty. */
  type AccountId = a: JsString | a != [] witness [0x35]

  /** The entry of a map at a key, if there is one. */
  function Lookup<K, V>(m: map<K, V>, k: K): Option<V> {
    if k in m then Some(m[k]) else None
  }

  // ---------------------------------------------------------------- filtering sequences

  function Filter<T>(s: seq<T>, keep: T -> bool): seq<T> {
    if s == [] then []
    else Filter(s[..|s| - 1], keep) + if keep(s[|s| - 1]) then [s[|s| - 1]] else []
  }

  lemma FilterSnoc<T>(s: seq<T>, x: T, keep: T -> bool)
    ensures Filter(s + [x], keep) == if keep(x) then Filter(s, keep) + [x] else Filter(s, keep)
  {
    assert (s + [x])[..|s|] == s;
  }

  lemma {:induction false} FilterConcat<T>(a: seq<T>, b: seq<T>, keep: T -> bool)
    ensures Filter(a + b, keep) == Filter(a, keep) + Filter(b, keep)
  {
    if b == [] {
      assert a + b == a;
    } else {
      var rest, last := b[..|b| - 1], b[|b| - 1];
      FilterConcat(a, rest, keep);
      FilterSnoc(a + rest, last, keep);
      assert a + b == a + rest + [last];
    }
  }

  lemma {:induction false} FilterMember<T>(s: seq<T>, x: T, keep: T -> bool)
    ensures x in Filter(s, keep) <==> x in s && keep(x)
  {
    if s != [] {
      var rest, last := s[..|s| - 1], s[|s| - 1];
      FilterMember(rest, x, keep);
      assert s == rest + [last];
    }
  }

  /** Filtering twice keeps what passes both. */
  lemma {:induction false} FilterTwice<T(!new)>(s: seq<T>, first: T -> bool, second: T -> bool, both: T -> bool)
    requires forall x :: both(x) <==> first(x) && second(x)
    ensures Filter(Filter(s, first), second) == Filter(s, both)
  {
    if s != [] {
      var rest, last := s[..|s| - 1], s[|s| - 1];
      FilterTwice(rest, first, second, both);
      FilterSnoc(Filter(rest, first), last, second);
      assert Filter(s, first) == if first(last) then Filter(rest, first) + [last] else Filter(rest, first);
    }
  }

  lemma {:induction false} FilterNothing<T>(s: seq<T>, keep: T -> bool)
    requires forall x :: x in s ==> !keep(x)
    ensures Filter(s, keep) == []
  {
    if s != [] {
      FilterNothing(s[..|s| - 1], keep);
      assert s[|s| - 1] in s;
    }
  }
}
