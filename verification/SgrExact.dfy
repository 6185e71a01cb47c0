/**
 Which sequences the wrapper takes for a reset, said of their bytes.
 */
module SgrExact {
  import opened Bytes
  import opened Sgr

  predicate Digit(b: Byte) {
    0x30 <= b <= 0x39
  }

  /** A number from i to j, as long as it gets, and nothing but zeros. */
  predicate ZeroNumber(b: Text, i: nat, j: nat) {
    && i < j <= |b|
    && (forall k :: i <= k < j ==> b[k] == 0x30)
    && (i > 0 ==> !Digit(b[i - 1]))
    && (j < |b| ==> !Digit(b[j]))
  }

  ghost predicate HasZero(b: Text) {
    exists i, j :: ZeroNumber(b, i, j)
  }

  lemma {:induction false} ValueZero(f: Text)
    requires forall k :: 0 <= k < |f| ==> IsDigit(f[k])
    ensures Value(f) == 0 <==> forall k :: 0 <= k < |f| ==> f[k] == 0x30
  {
    if f != [] {
      var n := |f| - 1;
      ValueZero(f[..n]);
      assert f == f[..n] + [f[n]];
    }
  }

  /** The fields that are left, of which the first has been read up to k. */
  lemma {:induction false} FieldsZero(b: Text, i: nat, k: nat)
    requires i <= k <= |b| && (forall x :: i <= x < k ==> Digit(b[x])) && (i > 0 ==> !Digit(b[i - 1]))
    ensures ZeroIn(Fields(b[i..k], b[k..])) <==> exists x, y :: i <= x && ZeroNumber(b, x, y)
    decreases |b| - k
  {
    var cur := b[i..k];
    if k < |b| && Digit(b[k]) {
      FieldsZero(b, i, k + 1);
      assert cur + [b[k]] == b[i..k + 1] && b[k..][1..] == b[k + 1..];
    } else {
      ValueZero(cur);
      FirstNumber(b, i, k);
      if k < |b| {
        FieldsZero(b, k + 1, k + 1);
        assert b[k + 1..k + 1] == [] && b[k..][1..] == b[k + 1..];
        assert Fields(cur, b[k..])[1..] == Fields([], b[k + 1..]);
      } else {
        assert b[k..] == [] && Fields(cur, b[k..])[1..] == [];
      }
    }
  }

  /** A number of zeros from i on is the one that starts there, or comes after it. */
  lemma FirstNumber(b: Text, i: nat, k: nat)
    requires i <= k <= |b| && (forall x :: i <= x < k ==> Digit(b[x])) && (i > 0 ==> !Digit(b[i - 1]))
    requires k < |b| ==> !Digit(b[k])
    ensures ZeroNumber(b, i, k) <==> i < k && forall x :: 0 <= x < |b[i..k]| ==> b[i..k][x] == 0x30
    ensures forall x, y :: i <= x && ZeroNumber(b, x, y) ==> (x == i && y == k) || (k < |b| && k + 1 <= x)
  {
    if ZeroNumber(b, i, k) {
      assert forall x :: 0 <= x < |b[i..k]| ==> b[i..k][x] == b[i + x];
    }
    if i < k && forall x :: 0 <= x < |b[i..k]| ==> b[i..k][x] == 0x30 {
      forall x | i <= x < k
        ensures b[x] == 0x30
      {
        assert b[x] == b[i..k][x - i];
      }
    }
  }

  /** A sequence is taken for a reset exactly when it is ESC [ m or has a number between its
      brackets that is all zeros. */
  lemma ResetsExactly(e: Text)
    ensures Resets(e) <==>
              && |e| >= 3 && e[0] == 0x1b && e[1] == 0x5b && e[|e| - 1] == 0x6d
              && (|e| == 3 || HasZero(e[2..|e| - 1]))
  {
    if IsCsiM(e) {
      var b := Body(e);
      assert b[0..0] == [] && b[0..] == b;
      FieldsZero(b, 0, 0);
    }
  }
}
