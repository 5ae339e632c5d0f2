/** Machine words as their bits, the C operators on them, and finding the first set bit of a word. */
module Words {

  const BITS_PER_LONG: nat := 64

  /** A 64-bit word, least significant bit first. */
  type Word = w: seq<bool> | |w| == BITS_PER_LONG witness seq(BITS_PER_LONG, _ => false)

  const ZERO: Word := seq(BITS_PER_LONG, _ => false)
  const ONES: Word := seq(BITS_PER_LONG, _ => true)

  function Not(w: Word): Word {
    seq(BITS_PER_LONG, i requires 0 <= i < BITS_PER_LONG => !w[i])
  }

  function And(w: Word, v: Word): Word {
    seq(BITS_PER_LONG, i requires 0 <= i < BITS_PER_LONG => w[i] && v[i])
  }

  function Or(w: Word, v: Word): Word {
    seq(BITS_PER_LONG, i requires 0 <= i < BITS_PER_LONG => w[i] || v[i])
  }

  function Shl(w: Word, k: nat): Word {
    seq(BITS_PER_LONG, i requires 0 <= i < BITS_PER_LONG => i >= k && w[i - k])
  }

  function Shr(w: Word, k: nat): Word {
    seq(BITS_PER_LONG, i requires 0 <= i < BITS_PER_LONG => i + k < BITS_PER_LONG && w[i + k])
  }

  /** The word with the lowest `k` bits set. */
  function Low(k: nat): Word {
    seq(BITS_PER_LONG, i requires 0 <= i < BITS_PER_LONG => i < k)
  }

  /** `r` is the lowest set bit. */
  predicate LowestSet(w: Word, r: nat) {
    r < BITS_PER_LONG && w[r] && forall i :: 0 <= i < r ==> !w[i]
  }

  lemma NonZero(w: Word)
    ensures w != ZERO <==> exists i :: 0 <= i < BITS_PER_LONG && w[i]
  {
    if forall i :: 0 <= i < BITS_PER_LONG ==> !w[i] {
      assert w == ZERO;
    }
  }

  /** One step of the search: shifts the low `k` bits out if none of them is set. */
  method Halve(word: Word, k: nat, num: nat, ghost w: Word) returns (word': Word, num': nat)
    requires k > 0 && num + 2 * k <= BITS_PER_LONG
    requires word == Shr(w, num) && w != ZERO
    requires forall i :: 0 <= i < num ==> !w[i]
    requires exists i :: num <= i < num + 2 * k && w[i]
    ensures word' == Shr(w, num') && num <= num' <= num + k && num' + k <= BITS_PER_LONG
    ensures forall i :: 0 <= i < num' ==> !w[i]
    ensures exists i :: num' <= i < num' + k && w[i]
  {
    word', num' := word, num;
    if And(word, Low(k)) == ZERO {
      forall i | num <= i < num + k
        ensures !w[i]
      {
        assert And(word, Low(k))[i - num] == w[i];
        assert ZERO[i - num] == false;
      }
      num' := num + k;
      word' := Shr(word, k);
      assert word' == Shr(w, num');
    } else {
      NonZero(And(word, Low(k)));
      var i :| 0 <= i < BITS_PER_LONG && And(word, Low(k))[i];
      assert w[num + i];
    }
  }

  /** The number of the first set bit, by halving six times. */
  method Ffs(w: Word) returns (num: nat)
    requires w != ZERO
    ensures LowestSet(w, num)
  {
    var word := w;
    NonZero(w);
    assert Shr(w, 0) == w;
    num := 0;
    word, num := Halve(word, 32, num, w);
    word, num := Halve(word, 16, num, w);
    word, num := Halve(word, 8, num, w);
    num := FfsByte(word, num, w);
  }

  /** The last three halvings, of the byte that starts at bit `num0`. */
  method FfsByte(word0: Word, num0: nat, ghost w: Word) returns (num: nat)
    requires num0 + 8 <= BITS_PER_LONG && word0 == Shr(w, num0) && w != ZERO
    requires forall i :: 0 <= i < num0 ==> !w[i]
    requires exists i :: num0 <= i < num0 + 8 && w[i]
    ensures LowestSet(w, num)
  {
    var word;
    word, num := Halve(word0, 4, num0, w);
    word, num := Halve(word, 2, num, w);
    word, num := Halve(word, 1, num, w);
  }

  lemma NotAllOnes(w: Word)
    requires w != ONES
    ensures Not(w) != ZERO
  {
    var i :| 0 <= i < BITS_PER_LONG && w[i] != ONES[i];
    assert Not(w)[i] != ZERO[i];
  }

  /** The number of the first clear bit. */
  method Ffz(w: Word) returns (num: nat)
    requires w != ONES
    ensures num < BITS_PER_LONG && !w[num] && forall i :: 0 <= i < num ==> w[i]
  {
    NotAllOnes(w);
    num := Ffs(Not(w));
    assert forall i :: 0 <= i < BITS_PER_LONG ==> Not(w)[i] == !w[i];
  }
}
