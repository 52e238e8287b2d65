/** One copy of an exFAT table as flat bytes: 32-bit links, least significant byte first. */
module ExfatImage {
  import opened Bytes

  function Entry(f: seq<Byte>, c: nat): (v: nat)
    requires 4 * c + 4 <= |f|
    ensures v < U32
  {
    Powers();
    FromLE(f[4 * c..4 * c + 4])
  }

  function Table(f: seq<Byte>): (t: seq<nat>)
    ensures |t| == |f| / 4
  {
    seq(|f| / 4, c requires 0 <= c < |f| / 4 => Entry(f, c))
  }

  function Put(f: seq<Byte>, c: nat, v: nat): (r: seq<Byte>)
    requires 4 * c + 4 <= |f|
    ensures |r| == |f|
  {
    f[..4 * c] + LE(v, 4) + f[4 * c + 4..]
  }

  lemma PutTable(f: seq<Byte>, c: nat, v: nat)
    requires 4 * c + 4 <= |f| && v < U32
    ensures Table(Put(f, c, v)) == Table(f)[c := v]
  {
    var r := Put(f, c, v);
    Powers();
    hide FromLE, LE;
    assert forall j :: 0 <= j < 4 * c || 4 * c + 4 <= j < |f| ==> r[j] == f[j];
    forall d | 0 <= d < |f| / 4 ensures Entry(r, d) == if d == c then v else Entry(f, d) {
      if d == c {
        assert r[4 * c..4 * c + 4] == LE(v, 4);
        LERoundTrip(v, 4);
      } else {
        assert 4 * d + 4 <= 4 * c || 4 * c + 4 <= 4 * d;
        assert r[4 * d..4 * d + 4] == f[4 * d..4 * d + 4];
      }
    }
  }

  lemma TableDetermines(f: seq<Byte>, h: seq<Byte>)
    requires |f| == |h| && |f| % 4 == 0 && Table(f) == Table(h)
    ensures f == h
  {
    hide FromLE, LE;
    forall i | 0 <= i < |f| ensures f[i] == h[i] {
      var c, k := i / 4, i % 4;
      assert i == 4 * c + k && 4 * c + 4 <= |f|;
      assert Entry(f, c) == Table(f)[c] == Table(h)[c] == Entry(h, c);
      var a, b := f[4 * c..4 * c + 4], h[4 * c..4 * c + 4];
      FromLERoundTrip(a);
      FromLERoundTrip(b);
      assert a == b;
      assert f[i] == a[k] && h[i] == b[k];
    }
  }
}
