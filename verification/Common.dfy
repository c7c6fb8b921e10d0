/** What several components share. */
module Common {

  /** uint arithmetic is modulo this. */
  const UINT := 0x1_0000_0000

  datatype Option<+T> = None | Some(value: T)

  /** How many pieces of a given size n bytes from `at` on lie in. */
  function Pieces(size: nat, at: nat, n: nat): nat
    requires size > 0
  {
    if n == 0 then 0 else (at + n - 1) / size - at / size + 1
  }

  /** No element occurs twice. */
  predicate Distinct(s: seq<nat>) {
    forall i, j :: 0 <= i < j < |s| ==> s[i] != s[j]
  }

  lemma {:induction false} SubsetCard(a: set<nat>, b: set<nat>)
    requires a <= b
    ensures |a| <= |b|
  {
    if a != {} {
      var x :| x in a;
      SubsetCard(a - {x}, b - {x});
    }
  }

  /** a comes before b where they first differ. */
  predicate Less(a: seq<nat>, b: seq<nat>) {
    a != [] && b != [] && (a[0] < b[0] || (a[0] == b[0] && Less(a[1..], b[1..])))
  }

  lemma LessNone()
    ensures !Less([], [])
  {
  }

  lemma LessOne(a: nat, b: nat)
    ensures Less([a], [b]) <==> a < b
  {
  }

  lemma LessTwo(a: nat, a': nat, b: nat, b': nat)
    ensures Less([a, a'], [b, b']) <==> a < b || (a == b && a' < b')
  {
    assert [a, a'][1..] == [a'] && [b, b'][1..] == [b'];
    LessOne(a', b');
  }

  lemma LessThree(a: nat, a': nat, a'': nat, b: nat, b': nat, b'': nat)
    ensures Less([a, a', a''], [b, b', b'']) <==> a < b || (a == b && (a' < b' || (a' == b' && a'' < b'')))
  {
    assert [a, a', a''][1..] == [a', a''] && [b, b', b''][1..] == [b', b''];
    LessTwo(a', a'', b', b'');
  }
}
