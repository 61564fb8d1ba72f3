/**
 * A reference definition of the tokens strtok hands out, independent of
 * its scanning: cut the text at every separator character and keep the
 * non-empty pieces.
 */
module FieldSplit {

  /** `w` cut at every separator; empty pieces are kept, so there is one more piece than separators. */
  function Pieces(w: seq<char>, sep: seq<char>): (r: seq<seq<char>>)
    ensures |r| >= 1
  {
    if w == [] then [[]]
    else
      var rest := Pieces(w[1..], sep);
      if w[0] in sep then [[]] + rest else [[w[0]] + rest[0]] + rest[1..]
  }

  /** The non-empty elements of `xs`, in order. */
  function NonEmpty(xs: seq<seq<char>>): (r: seq<seq<char>>)
    ensures |r| <= |xs|
    ensures forall t :: t in r ==> t != [] && t in xs
  {
    if xs == [] then []
    else (if xs[0] == [] then [] else [xs[0]]) + NonEmpty(xs[1..])
  }

  /** The fields of `w`: its maximal non-empty runs of non-separators. */
  function Fields(w: seq<char>, sep: seq<char>): seq<seq<char>> {
    NonEmpty(Pieces(w, sep))
  }

  /** The text after the first separator of `w` (empty if there is none). */
  function AfterRun(w: seq<char>, sep: seq<char>): (r: seq<char>)
    ensures |r| <= |w|
  {
    if w == [] then []
    else if w[0] in sep then w[1..]
    else AfterRun(w[1..], sep)
  }

  /** The text after the separator that ends the first field of `w` (empty if the field ends the text). */
  function AfterFirstField(w: seq<char>, sep: seq<char>): (r: seq<char>)
    ensures |r| <= |w|
  {
    if w == [] then []
    else if w[0] in sep then AfterFirstField(w[1..], sep)
    else AfterRun(w[1..], sep)
  }

  lemma {:induction false} NonEmptyAppend(a: seq<seq<char>>, b: seq<seq<char>>)
    ensures NonEmpty(a + b) == NonEmpty(a) + NonEmpty(b)
  {
    if a != [] {
      assert (a + b)[1..] == a[1..] + b;
      NonEmptyAppend(a[1..], b);
    } else {
      assert a + b == b;
    }
  }

  /** No piece, hence no field, holds a separator. */
  lemma {:induction false} PiecesHoldNoSeparator(w: seq<char>, sep: seq<char>)
    ensures forall t, c :: t in Pieces(w, sep) && c in t ==> c !in sep
  {
    if w != [] {
      PiecesHoldNoSeparator(w[1..], sep);
      var rest := Pieces(w[1..], sep);
      assert rest[0] in rest;
      forall t | t in rest[1..] ensures t in rest { }
    }
  }

  /** Every field is non-empty and holds no separator. */
  lemma FieldsWellFormed(w: seq<char>, sep: seq<char>)
    ensures forall t :: t in Fields(w, sep) ==> t != [] && forall c :: c in t ==> c !in sep
  {
    PiecesHoldNoSeparator(w, sep);
  }

  /** A text has no fields exactly when it consists of separators only. */
  lemma {:induction false} NoFieldsIffAllSeparators(w: seq<char>, sep: seq<char>)
    ensures Fields(w, sep) == [] <==> forall k :: 0 <= k < |w| ==> w[k] in sep
  {
    if w != [] {
      NoFieldsIffAllSeparators(w[1..], sep);
      var rest := Pieces(w[1..], sep);
      if w[0] in sep {
        assert Pieces(w, sep) == [[]] + rest;
        NonEmptyAppend([[]], rest);
        assert forall k :: 1 <= k < |w| ==> w[k] == w[1..][k - 1];
      } else {
        assert Pieces(w, sep)[0] != [];
        assert Fields(w, sep) != [];
      }
    }
  }

  /** Leading separators change neither the fields nor what follows the first one. */
  lemma {:induction false} LeadingSeparators(u: seq<char>, v: seq<char>, sep: seq<char>)
    requires forall k :: 0 <= k < |u| ==> u[k] in sep
    ensures Fields(u + v, sep) == Fields(v, sep)
    ensures AfterFirstField(u + v, sep) == AfterFirstField(v, sep)
  {
    if u != [] {
      assert (u + v)[1..] == u[1..] + v;
      LeadingSeparators(u[1..], v, sep);
      NonEmptyAppend([[]], Pieces(u[1..] + v, sep));
    } else {
      assert u + v == v;
    }
  }

  /** A run of non-separators extends the first piece and changes nothing after the first separator. */
  lemma {:induction false} RunOfNonSeparators(t: seq<char>, v: seq<char>, sep: seq<char>)
    requires forall k :: 0 <= k < |t| ==> t[k] !in sep
    ensures Pieces(t + v, sep) == [t + Pieces(v, sep)[0]] + Pieces(v, sep)[1..]
    ensures AfterRun(t + v, sep) == AfterRun(v, sep)
  {
    if t != [] {
      assert (t + v)[1..] == t[1..] + v;
      RunOfNonSeparators(t[1..], v, sep);
      assert [t[0]] + (t[1..] + Pieces(v, sep)[0]) == t + Pieces(v, sep)[0];
    } else {
      var pv := Pieces(v, sep);
      assert t + v == v && t + pv[0] == pv[0];
      assert pv == [pv[0]] + pv[1..];
    }
  }

  /** The first field is a run `t` of non-separators that a separator or the end of the text ends. */
  lemma FirstField(t: seq<char>, v: seq<char>, sep: seq<char>)
    requires t != [] && forall k :: 0 <= k < |t| ==> t[k] !in sep
    requires v == [] || v[0] in sep
    ensures Fields(t + v, sep) == [t] + Fields(if v == [] then [] else v[1..], sep)
    ensures AfterFirstField(t + v, sep) == if v == [] then [] else v[1..]
  {
    RunOfNonSeparators(t, v, sep);
    RunOfNonSeparators(t[1..], v, sep);
    assert (t + v)[1..] == t[1..] + v;
    var ps := Pieces(t + v, sep);
    if v == [] {
      assert Pieces(v, sep) == [[]];
      assert t + [] == t;
      assert ps == [t];
    } else {
      assert Pieces(v, sep) == [[]] + Pieces(v[1..], sep);
      assert t + [] == t;
      assert ps == [t] + Pieces(v[1..], sep);
      NonEmptyAppend([t], Pieces(v[1..], sep));
    }
  }

  /** After the first field, the remaining fields are those of the text after its separator. */
  lemma {:induction false} PiecesAfterRun(w: seq<char>, sep: seq<char>)
    ensures NonEmpty(Pieces(w, sep)[1..]) == Fields(AfterRun(w, sep), sep)
  {
    if w != [] {
      var rest := Pieces(w[1..], sep);
      if w[0] in sep {
        assert Pieces(w, sep)[1..] == rest;
      } else {
        assert Pieces(w, sep)[1..] == rest[1..];
        PiecesAfterRun(w[1..], sep);
      }
    }
  }

  /** A text with fields: its fields are the first one followed by those of the text after it. */
  lemma {:induction false} FieldsUnfold(w: seq<char>, sep: seq<char>)
    requires Fields(w, sep) != []
    ensures Fields(w, sep) == [Fields(w, sep)[0]] + Fields(AfterFirstField(w, sep), sep)
  {
    var rest := Pieces(w[1..], sep);
    if w[0] in sep {
      assert Pieces(w, sep) == [[]] + rest;
      NonEmptyAppend([[]], rest);
      FieldsUnfold(w[1..], sep);
    } else {
      var ps := Pieces(w, sep);
      assert ps == [ps[0]] + ps[1..];
      NonEmptyAppend([ps[0]], ps[1..]);
      PiecesAfterRun(w[1..], sep);
      assert ps[1..] == rest[1..];
    }
  }
}
