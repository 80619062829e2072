/**
 * Shapes shared by the server and the browser client: socket ids, the
 * answers object a player submits, the seven categories and the admin's
 * per-player score change.
 */
module Protocol {
  import opened Wrappers

  /** A Socket.IO connection id; the server keys every player record by it. */
  type Sid = string

  /**
   * A JavaScript object mapping category name to answer, as its ordered list of
   * (key, value) entries (the order `for ... in` and `Object.entries` visit).
   * A real object has each key once. The sequence type does not enforce that,
   * but every answers object in the model has distinct keys: the client builds
   * it from the seven distinct categories (`SubmitPayloadShape`,
   * `CategoriesDistinct`). On a sequence with a repeated key `Lookup` would
   * read the first entry, where `JSON.parse` keeps the last.
   */
  type Answers = seq<(string, string)>

  /** The fixed category list, in the order the client builds its answers object. */
  const Categories: seq<string> :=
    ["Nome", "Cognome", "Città", "Animale", "Cosa", "Mestiere", "Personaggi Televisivi"]

  /** `obj[key]`: the value of the first entry with that key, or `undefined`. */
  function Lookup(a: Answers, key: string): (r: Option<string>)
    ensures r.Some? <==> exists i :: 0 <= i < |a| && a[i].0 == key
    ensures r.Some? ==> exists i :: 0 <= i < |a| && a[i] == (key, r.value)
  {
    if a == [] then None
    else if a[0].0 == key then Some(a[0].1)
    else
      var r := Lookup(a[1..], key);
      assert forall i | 1 <= i < |a| :: a[i] == a[1..][i - 1];
      r
  }

  /** One entry of the `admin-score-update` payload. */
  datatype ScoreChange = ScoreChange(oldScore: int, newScore: int, difference: int)

  /** No value occurs twice in `s`. */
  predicate NoDup<T(==)>(s: seq<T>) {
    forall i, j | 0 <= i < j < |s| :: s[i] != s[j]
  }

  /** Removing the same element from two permutations of each other leaves permutations. */
  lemma MultisetRemoveHead<T>(a: seq<T>, b: seq<T>, i: nat)
    requires a != [] && i < |b| && b[i] == a[0] && multiset(a) == multiset(b)
    ensures multiset(a[1..]) == multiset(b[..i] + b[i + 1..])
  {
    var x := a[0];
    var rest := b[..i] + b[i + 1..];
    assert a == [x] + a[1..];
    assert b == b[..i] + [x] + b[i + 1..];
    assert multiset(b) == multiset(rest) + multiset{x};
    assert multiset(a) == multiset(a[1..]) + multiset{x};
    forall y
      ensures multiset(a[1..])[y] == multiset(rest)[y]
    {
      assert (multiset(a[1..]) + multiset{x})[y] == (multiset(rest) + multiset{x})[y];
    }
  }
}
