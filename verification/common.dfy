/**
 Identifiers, the Option wrapper and small sequence helpers shared by the
 registry, the message store and the connection handler.

 Every identifier of the chat backend is a UUID; the model only needs
 equality (and, for chat ids, an order used to enumerate a set), so each
 one is a natural number.
 */
module Common {

  type UserId = nat
  type ChatId = nat
  type SocketId = nat
  type MessageId = nat
  type ClientMsgId = nat

  /** Wall-clock or database time, in milliseconds. */
  type Timestamp = int

  datatype Option<+T> = None | Some(value: T) {

    /** The wrapped value, or `default` when there is none (Python's `dict.get(k, default)`). */
    function GetOr(default: T): T {
      match this
      case Some(v) => v
      case None => default
    }
  }

  /** The elements of a sequence, as a set. */
  function Elems<T>(s: seq<T>): set<T> {
    set x | x in s
  }

  predicate NoDuplicates<T(==)>(s: seq<T>) {
    forall i, j | 0 <= i < j < |s| :: s[i] != s[j]
  }

  lemma NoDuplicatesCons<T>(x: T, s: seq<T>)
    requires x !in s && NoDuplicates(s)
    ensures NoDuplicates([x] + s)
  {
    forall i, j | 0 <= i < j < |[x] + s|
      ensures ([x] + s)[i] != ([x] + s)[j]
    {
      if i == 0 {
        assert ([x] + s)[j] == s[j - 1];
      }
    }
  }

  /** `s` with every element of `xs` removed, order otherwise kept. */
  function Without<T(==)>(s: seq<T>, xs: set<T>): (r: seq<T>)
    ensures forall x | x in r :: x in s && x !in xs
    ensures forall x | x in s && x !in xs :: x in r
    ensures |r| <= |s|
    ensures NoDuplicates(s) ==> NoDuplicates(r)
    ensures (forall x | x in s :: x !in xs) ==> r == s
  {
    if s == [] then []
    else
      var rest := Without(s[1..], xs);
      if s[0] in xs then rest
      else
        assert forall x | x in rest :: x in s[1..];
        assert NoDuplicates(s) ==> NoDuplicates([s[0]] + rest) by {
          if NoDuplicates(s) {
            assert s[0] !in s[1..];
            NoDuplicatesCons(s[0], rest);
          }
        }
        [s[0]] + rest
  }

  /** Removing an element appended to a sequence that lacked it gives the sequence back. */
  lemma {:induction false} WithoutAppended<T>(s: seq<T>, x: T)
    requires x !in s
    ensures Without(s + [x], {x}) == s
  {
    if s != [] {
      assert (s + [x])[1..] == s[1..] + [x];
      WithoutAppended(s[1..], x);
    }
  }

  /** The elements of a set of chat ids in ascending order. */
  function Ascending(s: set<ChatId>): (r: seq<ChatId>)
    ensures forall x | x in r :: x in s
    ensures forall x | x in s :: x in r
    ensures |r| == |s|
    ensures forall i, j | 0 <= i < j < |r| :: r[i] < r[j]
    decreases s
  {
    if s == {} then []
    else
      var x := Least(s);
      var rest := Ascending(s - {x});
      AscendingCons(s, x, rest);
      [x] + rest
  }

  /** Putting the least element of `s` in front of an ascending listing of
      the rest gives an ascending listing of `s`. */
  lemma AscendingCons(s: set<ChatId>, x: ChatId, rest: seq<ChatId>)
    requires IsLeast(x, s)
    requires forall y | y in rest :: y in s - {x}
    requires forall y | y in s - {x} :: y in rest
    requires |rest| == |s - {x}|
    requires forall i, j | 0 <= i < j < |rest| :: rest[i] < rest[j]
    ensures forall y | y in [x] + rest :: y in s
    ensures forall y | y in s :: y in [x] + rest
    ensures |[x] + rest| == |s|
    ensures forall i, j | 0 <= i < j < |[x] + rest| :: ([x] + rest)[i] < ([x] + rest)[j]
  {
    forall j | 0 <= j < |rest| ensures x < rest[j] {
      assert rest[j] in rest;
    }
  }

  predicate IsLeast(x: ChatId, s: set<ChatId>) {
    x in s && forall y | y in s :: x <= y
  }

  /** The least element of a non-empty set of chat ids. */
  function Least(s: set<ChatId>): (x: ChatId)
    requires s != {}
    ensures IsLeast(x, s)
  {
    LeastExists(s);
    var x :| IsLeast(x, s);
    x
  }

  lemma LeastExists(s: set<ChatId>)
    requires s != {}
    ensures exists x :: IsLeast(x, s)
  {
    var y :| y in s;
    if s != {y} {
      LeastExists(s - {y});
      var z :| IsLeast(z, s - {y});
      var m := if y < z then y else z;
      forall w | w in s
        ensures m <= w
      {
        if w != y {
          assert w in s - {y};
        }
      }
      assert IsLeast(m, s);
    } else {
      assert IsLeast(y, s);
    }
  }

  /** The position of an element of a sequence. */
  function IndexOf<T(==)>(s: seq<T>, x: T): (i: nat)
    requires x in s
    ensures i < |s| && s[i] == x
  {
    if s[0] == x then 0 else 1 + IndexOf(s[1..], x)
  }
}
