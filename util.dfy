/**
  Two helpers of the repository: inverting a dictionary into a dictionary of key lists,
  and the byte-counting rule that decides whether a file is binary.
*/
module Util {

  /** `ih` inverts `h`: its keys are exactly the values of `h`, no list is empty, every key
      of `h` is listed exactly once under its value, and nothing else is listed. */
  ghost predicate IsInverse(h: map<string, string>, ih: map<string, seq<string>>)
  {
    ih.Keys == h.Values &&
    NonEmptyLists(ih) &&
    ListedOnceSoFar(h, h.Keys, ih) &&
    OnlyDone(h, h.Keys, ih)
  }

  /** Python's `invert_hash`. The dictionary is visited in an order the model leaves open,
      so the order of keys within a list is not determined. */
  method InvertHash(h: map<string, string>) returns (ih: map<string, seq<string>>)
    ensures IsInverse(h, ih)
  {
    ih := map[];
    var rest := h.Keys;
    ghost var done: set<string> := {};
    while rest != {}
      invariant rest + done == h.Keys && rest !! done
      invariant InvertedSoFar(h, done, ih)
      decreases rest
    {
      var k :| k in rest;
      var v := h[k];
      ghost var before := ih;
      if v !in ih {
        ih := ih[v := []];
      }
      ih := ih[v := ih[v] + [k]];
      assert ih == Listed(before, v, k);
      InvertStep(h, done, before, k);
      rest := rest - {k};
      done := done + {k};
    }
    InvertedAll(h, ih);
  }

  /** `ih` inverts `h` restricted to the keys `done`. */
  ghost predicate InvertedSoFar(h: map<string, string>, done: set<string>, ih: map<string, seq<string>>)
  {
    done <= h.Keys && ValuesOf(h, done, ih) && NonEmptyLists(ih) &&
    ListedOnceSoFar(h, done, ih) && OnlyDone(h, done, ih)
  }

  ghost predicate ValuesOf(h: map<string, string>, done: set<string>, ih: map<string, seq<string>>)
    requires done <= h.Keys
  {
    forall v :: v in ih <==> exists k :: k in done && h[k] == v
  }

  ghost predicate NonEmptyLists(ih: map<string, seq<string>>)
  {
    forall v :: v in ih ==> ih[v] != []
  }

  ghost predicate ListedOnceSoFar(h: map<string, string>, done: set<string>, ih: map<string, seq<string>>)
    requires done <= h.Keys
  {
    forall k :: k in done ==> h[k] in ih && multiset(ih[h[k]])[k] == 1
  }

  ghost predicate OnlyDone(h: map<string, string>, done: set<string>, ih: map<string, seq<string>>)
  {
    forall v, k :: v in ih && k in ih[v] ==> k in done && k in h && h[k] == v
  }

  /** `ih` with `k` appended to the list under `v`, which starts empty. */
  function Listed(ih: map<string, seq<string>>, v: string, k: string): map<string, seq<string>>
  {
    ih[v := (if v in ih then ih[v] else []) + [k]]
  }

  lemma InvertStep(h: map<string, string>, done: set<string>, ih: map<string, seq<string>>, k: string)
    requires InvertedSoFar(h, done, ih) && k in h && k !in done
    ensures InvertedSoFar(h, done + {k}, Listed(ih, h[k], k))
  {
    StepValues(h, done, ih, k);
    StepOnce(h, done, ih, k);
    StepOnly(h, done, ih, k);
  }

  lemma StepValues(h: map<string, string>, done: set<string>, ih: map<string, seq<string>>, k: string)
    requires done <= h.Keys && ValuesOf(h, done, ih) && k in h
    ensures ValuesOf(h, done + {k}, Listed(ih, h[k], k))
  {
    var ih' := Listed(ih, h[k], k);
    forall v | v in ih' ensures exists j :: j in done + {k} && h[j] == v {
      if v != h[k] {
        var j :| j in done && h[j] == v;
      }
    }
  }

  lemma StepOnce(h: map<string, string>, done: set<string>, ih: map<string, seq<string>>, k: string)
    requires done <= h.Keys && ListedOnceSoFar(h, done, ih) && OnlyDone(h, done, ih)
    requires k in h && k !in done
    ensures ListedOnceSoFar(h, done + {k}, Listed(ih, h[k], k))
  {
    var v := h[k];
    var ih' := Listed(ih, v, k);
    var before := if v in ih then ih[v] else [];
    assert multiset(ih'[v]) == multiset(before) + multiset{k};
    assert k !in before;
  }

  lemma StepOnly(h: map<string, string>, done: set<string>, ih: map<string, seq<string>>, k: string)
    requires OnlyDone(h, done, ih) && k in h
    ensures OnlyDone(h, done + {k}, Listed(ih, h[k], k))
  {
    var v := h[k];
    var ih' := Listed(ih, v, k);
    var before := if v in ih then ih[v] else [];
    assert ih'[v] == before + [k];
    forall w, j | w in ih' && j in ih'[w] ensures j in done + {k} && j in h && h[j] == w {
      if w == v && j !in before {
        assert j == k;
      }
    }
  }

  lemma InvertedAll(h: map<string, string>, ih: map<string, seq<string>>)
    requires InvertedSoFar(h, h.Keys, ih)
    ensures IsInverse(h, ih)
  {
    forall v | v in ih.Keys ensures v in h.Values {
      var k :| k in h.Keys && h[k] == v;
    }
    forall v | v in h.Values ensures v in ih.Keys {
      var k :| k in h.Keys && h[k] == v;
    }
  }

  /** The sum of the list lengths of an inverse is the number of keys: every key is counted
      once, under its own value. */
  lemma {:induction false} InverseSize(h: map<string, string>, ih: map<string, seq<string>>)
    requires IsInverse(h, ih)
    ensures TotalLength(ih) == |h|
    decreases |ih|
  {
    if ih != map[] {
      var v := PickValue(ih);
      var hv := WithoutValue(h, v);
      InverseWithout(h, ih, v);
      InverseSize(hv, ih - {v});
      ListedOnce(h, ih, v);
      WithoutValueSize(h, v);
    }
  }

  /** `h` without the keys whose value is `v`. */
  function WithoutValue(h: map<string, string>, v: string): (hv: map<string, string>)
    ensures forall k :: k in hv <==> k in h && h[k] != v
    ensures forall k :: k in hv ==> hv[k] == h[k]
  {
    map k | k in h && h[k] != v :: h[k]
  }

  lemma WithoutValueSize(h: map<string, string>, v: string)
    ensures |h| == |WithoutValue(h, v)| + |set k | k in h && h[k] == v|
  {
    var hv := WithoutValue(h, v);
    var ks := set k | k in h && h[k] == v;
    assert h.Keys == hv.Keys + ks;
    assert hv.Keys !! ks;
  }

  /** Dropping a value from an inverse leaves the inverse of the map without that value. */
  lemma InverseWithout(h: map<string, string>, ih: map<string, seq<string>>, v: string)
    requires IsInverse(h, ih) && v in ih
    ensures IsInverse(WithoutValue(h, v), ih - {v})
  {
    var hv := WithoutValue(h, v);
    var rest := ih - {v};
    forall w | w in rest.Keys ensures w in hv.Values {
      var k :| k in h && h[k] == w;
      assert hv[k] == w;
    }
    forall k | k in hv ensures hv[k] in rest && multiset(rest[hv[k]])[k] == 1 {
      assert hv[k] == h[k];
    }
    WithoutOnly(h, ih, v);
  }

  lemma WithoutOnly(h: map<string, string>, ih: map<string, seq<string>>, v: string)
    requires OnlyDone(h, h.Keys, ih)
    ensures OnlyDone(WithoutValue(h, v), WithoutValue(h, v).Keys, ih - {v})
  {
    var hv := WithoutValue(h, v);
    var rest := ih - {v};
    forall w, j | w in rest && j in rest[w] ensures j in hv.Keys && j in hv && hv[j] == w {
      assert w in ih && rest[w] == ih[w];
    }
  }

  /** The list under `v` lists each key with value `v` exactly once, and nothing else. */
  lemma ListedOnce(h: map<string, string>, ih: map<string, seq<string>>, v: string)
    requires IsInverse(h, ih) && v in ih
    ensures |ih[v]| == |set k | k in h && h[k] == v|
  {
    var ks := set k | k in h && h[k] == v;
    var m := multiset(ih[v]);
    assert m == multiset(ks) by {
      forall k ensures m[k] == multiset(ks)[k] {
        if k in ks {
          assert m[k] == 1;
        }
      }
    }
    assert |m| == |ih[v]|;
    assert |multiset(ks)| == |ks|;
  }

  ghost function PickValue(m: map<string, seq<string>>): (v: string)
    requires m != map[]
    ensures v in m
  {
    var v :| v in m; v
  }

  /** The sum of the lengths of the lists of `ih`. */
  ghost function TotalLength(ih: map<string, seq<string>>): nat
    decreases |ih|
  {
    if ih == map[] then 0
    else
      var v := PickValue(ih);
      |ih[v]| + TotalLength(ih - {v})
  }

  // ---- is_binary_file ----

  newtype byte = b: int | 0 <= b < 256

  /** The counting test as the code is written: the comparisons with '\r' and '\n' compare
      an integer with a one-character string, which always differ, so carriage returns and
      line feeds count as binary. */
  predicate CountsAsBinaryAsWritten(b: byte)
  {
    b > 0x7f || b < 0x1f
  }

  /** The evidently intended test: bytes above 0x7f, and control bytes below 0x1f other
      than carriage return and line feed. */
  predicate CountsAsBinary(b: byte)
  {
    b > 0x7f || (b < 0x1f && b != 0x0D && b != 0x0A)
  }

  /** The number of bytes of `buf` that `counted` selects. */
  function CountIf(buf: seq<byte>, counted: byte -> bool): (n: nat)
    ensures n <= |buf|
  {
    if buf == [] then 0
    else CountIf(buf[..|buf| - 1], counted) + if counted(buf[|buf| - 1]) then 1 else 0
  }

  /** The verdict of `is_binary_file` on the bytes of a file: text that decodes as UTF-8 is
      never binary; otherwise the file is binary when more than a fifth (rounded down) of
      its bytes count as binary. */
  function BinaryVerdict(buf: seq<byte>, decodesAsUtf8: bool, counted: byte -> bool): bool
  {
    !decodesAsUtf8 && CountIf(buf, counted) > |buf| / 5
  }

  lemma {:induction false} CountIfPrefix(buf: seq<byte>, counted: byte -> bool, i: nat)
    requires i <= |buf|
    ensures CountIf(buf[..i], counted) <= CountIf(buf, counted)
    decreases |buf| - i
  {
    if i < |buf| {
      CountIfPrefix(buf, counted, i + 1);
      assert buf[..i + 1][..i] == buf[..i];
      assert CountIf(buf[..i + 1], counted) >= CountIf(buf[..i], counted);
    } else {
      assert buf[..i] == buf;
    }
  }

  /** Counts the selected bytes and stops as soon as the count exceeds a fifth of the
      length. */
  method ExceedsFifth(buf: seq<byte>, counted: byte -> bool) returns (exceeds: bool)
    ensures exceeds == (CountIf(buf, counted) > |buf| / 5)
  {
    var threshold := |buf| / 5;
    var binaryChars := 0;
    var i := 0;
    while i < |buf|
      invariant i <= |buf|
      invariant binaryChars == CountIf(buf[..i], counted) <= threshold
    {
      assert buf[..i + 1][..i] == buf[..i];
      if counted(buf[i]) {
        binaryChars := binaryChars + 1;
        if binaryChars > threshold {
          CountIfPrefix(buf, counted, i + 1);
          return true;
        }
      }
      i := i + 1;
    }
    assert buf[..i] == buf;
    return false;
  }

  /** `is_binary_file` as written, on the bytes read and the outcome of the UTF-8 decode. */
  method IsBinaryFileAsWritten(buf: seq<byte>, decodesAsUtf8: bool) returns (binary: bool)
    ensures binary == BinaryVerdict(buf, decodesAsUtf8, CountsAsBinaryAsWritten)
  {
    if decodesAsUtf8 {
      return false;
    }
    binary := ExceedsFifth(buf, CountsAsBinaryAsWritten);
  }

  /** `is_binary_file` with the intended test, which leaves line breaks alone. */
  method IsBinaryFile(buf: seq<byte>, decodesAsUtf8: bool) returns (binary: bool)
    ensures binary == BinaryVerdict(buf, decodesAsUtf8, CountsAsBinary)
  {
    if decodesAsUtf8 {
      return false;
    }
    binary := ExceedsFifth(buf, CountsAsBinary);
  }

  /** A byte that counts under the intended test counts as written too, so the intended
      verdict is never "binary" where the written one is not. */
  lemma {:induction false} IntendedCountsFewer(buf: seq<byte>)
    ensures CountIf(buf, CountsAsBinary) <= CountIf(buf, CountsAsBinaryAsWritten)
    ensures forall d :: BinaryVerdict(buf, d, CountsAsBinary) ==>
                        BinaryVerdict(buf, d, CountsAsBinaryAsWritten)
  {
    if buf != [] {
      IntendedCountsFewer(buf[..|buf| - 1]);
    }
  }

  /** Under the intended test, text made of bytes from 0x1f to 0x7f, carriage returns and
      line feeds is never binary, whatever the decoder said. */
  lemma {:induction false} LineTextNotBinary(buf: seq<byte>, decodesAsUtf8: bool)
    requires forall i :: 0 <= i < |buf| ==> 0x1f <= buf[i] <= 0x7f || buf[i] == 0x0D || buf[i] == 0x0A
    ensures CountIf(buf, CountsAsBinary) == 0
    ensures !BinaryVerdict(buf, decodesAsUtf8, CountsAsBinary)
    decreases |buf|
  {
    if buf != [] {
      LineTextNotBinary(buf[..|buf| - 1], decodesAsUtf8);
    }
  }

  /** The written test classes the five bytes "\n\nAA\xff", which fail to decode as UTF-8,
      as binary: it counts both line feeds, three bytes out of five, where the intended test
      counts one, which does not exceed the threshold of one. */
  lemma LineBreaksCountedAsWritten()
    ensures var buf: seq<byte> := [0x0A, 0x0A, 0x41, 0x41, 0xFF];
      CountIf(buf, CountsAsBinaryAsWritten) == 3 &&
      CountIf(buf, CountsAsBinary) == 1 &&
      BinaryVerdict(buf, false, CountsAsBinaryAsWritten) &&
      !BinaryVerdict(buf, false, CountsAsBinary)
  {
    var buf: seq<byte> := [0x0A, 0x0A, 0x41, 0x41, 0xFF];
    assert buf[..4][..3][..2][..1][..0] == [];
    assert CountIf(buf[..1], CountsAsBinaryAsWritten) == 1;
    assert CountIf(buf[..1], CountsAsBinary) == 0;
    assert buf[..4][..3][..2][..1] == buf[..1];
    assert buf[..4][..3][..2] == buf[..2];
    assert CountIf(buf[..2], CountsAsBinaryAsWritten) == 2;
    assert CountIf(buf[..2], CountsAsBinary) == 0;
    assert buf[..4][..3] == buf[..3];
    assert CountIf(buf[..3], CountsAsBinaryAsWritten) == 2;
    assert CountIf(buf[..3], CountsAsBinary) == 0;
    assert CountIf(buf[..4], CountsAsBinaryAsWritten) == 2;
    assert CountIf(buf[..4], CountsAsBinary) == 0;
  }
}
