/** The one-byte number codec of the binary combination files (tochar / unchar with
    the offset SP = 32, masked to a byte) and the fixed-width records such a file is
    made of: max_play bytes per combination, a trailing partial record ignored. */
module ByteCodec {
  import opened Text

  type Byte = b: int | 0 <= b < 256

  /** The offset added to every number so that small numbers become printable bytes. */
  const SP: int := 32

  /** tochar(ch) = (ch + SP) & 0xFF. Masking with 0xFF is the non-negative
      remainder modulo 256, also for negative arguments. */
  function ToChar(v: int): (b: Byte)
    ensures (b - v - SP) % 256 == 0
  {
    (v + SP) % 256
  }

  /** unchar(ch) = (ch - SP) & 0xFF. */
  function UnChar(b: int): (v: Byte)
    ensures (v - b + SP) % 256 == 0
  {
    (b - SP) % 256
  }

  /** unchar undoes tochar on every value a byte can hold. */
  lemma UnCharToChar(v: int)
    requires 0 <= v < 256
    ensures UnChar(ToChar(v)) == v
  {
  }

  /** tochar undoes unchar on every byte. */
  lemma ToCharUnChar(b: Byte)
    ensures ToChar(UnChar(b)) == b
  {
  }

  /** The lottery numbers 0..223 are stored as the bytes 32..255, unchanged apart
      from the offset. */
  lemma ToCharSmall(v: int)
    requires 0 <= v < 256 - SP
    ensures ToChar(v) == v + SP && SP <= ToChar(v)
  {
  }

  /** var_to_bin: one byte per number. */
  function VarToBin(v: seq<int>): (data: seq<Byte>)
    ensures |data| == |v|
  {
    seq(|v|, i requires 0 <= i < |v| => ToChar(v[i]))
  }

  /** bin_to_var(data, max_play): the first max_play bytes decoded (data[i] for i in
      range(max_play), which needs at least max_play bytes). */
  function BinToVar(data: seq<Byte>, m: nat): (v: seq<Byte>)
    requires m <= |data|
    ensures |v| == m
  {
    seq(m, i requires 0 <= i < m => UnChar(data[i]))
  }

  /** Decoding an encoded combination of byte-sized numbers gives it back. */
  lemma BinToVarToBin(v: seq<int>)
    requires forall i :: 0 <= i < |v| ==> 0 <= v[i] < 256
    ensures BinToVar(VarToBin(v), |v|) == v
  {
    forall i | 0 <= i < |v| ensures BinToVar(VarToBin(v), |v|)[i] == v[i] {
      UnCharToChar(v[i]);
    }
  }

  /** Encoding a decoded record gives back the record's bytes. */
  lemma VarToBinToVar(data: seq<Byte>)
    ensures VarToBin(BinToVar(data, |data|)) == data
  {
    forall i | 0 <= i < |data| ensures VarToBin(BinToVar(data, |data|))[i] == data[i] {
      ToCharUnChar(data[i]);
    }
  }

  // ---------------------------------------------------------------- fixed-width records

  /** The records read by repeated read(m) calls until one returns fewer than m bytes. */
  function Records(data: seq<Byte>, m: nat): (rs: seq<seq<Byte>>)
    requires m > 0
    ensures forall i :: 0 <= i < |rs| ==> |rs[i]| == m
    decreases |data|
  {
    if |data| < m then [] else [data[..m]] + Records(data[m..], m)
  }

  /** The concatenation of records, as they are written back one after another. */
  function Flatten(rs: seq<seq<Byte>>): seq<Byte>
  {
    if |rs| == 0 then [] else rs[0] + Flatten(rs[1..])
  }

  /** A stream of L bytes holds floor(L / m) records, which are its first
      m floor(L / m) bytes in order; the rest, fewer than m bytes, is ignored. */
  lemma RecordsCover(data: seq<Byte>, m: nat)
    requires m > 0
    ensures |Records(data, m)| == |data| / m
    ensures Flatten(Records(data, m)) == data[..m * (|data| / m)]
  {
    var rs := Records(data, m);
    RecordsPrefix(data, m);
    FlattenLength(rs, m);
    DivUnique(|data|, m, |rs|);
  }

  lemma {:induction false} RecordsPrefix(data: seq<Byte>, m: nat)
    requires m > 0
    ensures var f := Flatten(Records(data, m));
            |f| <= |data| < |f| + m && f == data[..|f|]
    decreases |data|
  {
    if |data| >= m {
      RecordsPrefix(data[m..], m);
      var f' := Flatten(Records(data[m..], m));
      assert Flatten(Records(data, m)) == data[..m] + f';
      assert data[..m] + data[m..][..|f'|] == data[..m + |f'|];
    }
  }

  /** The quotient is the q with m q <= l < m q + m. */
  lemma DivUnique(l: int, m: int, q: int)
    requires m > 0 && m * q <= l < m * q + m
    ensures l / m == q
  {
    var d, r := l / m, l % m;
    assert (d - q) * m == (l - q * m) - r;
    MulBound(d - q, m);
  }

  /** Splitting back a file written as whole records gives those records. */
  lemma {:induction false} RecordsFlatten(rs: seq<seq<Byte>>, m: nat)
    requires m > 0
    requires forall i :: 0 <= i < |rs| ==> |rs[i]| == m
    ensures Records(Flatten(rs), m) == rs
  {
    if |rs| > 0 {
      RecordsFlatten(rs[1..], m);
      var f := Flatten(rs);
      assert f == rs[0] + Flatten(rs[1..]);
      assert f[..m] == rs[0] && f[m..] == Flatten(rs[1..]);
      assert rs == [rs[0]] + rs[1..];
    }
  }

  lemma {:induction false} FlattenAppend(a: seq<seq<Byte>>, b: seq<seq<Byte>>)
    ensures Flatten(a + b) == Flatten(a) + Flatten(b)
  {
    if |a| > 0 {
      assert (a + b)[1..] == a[1..] + b;
      FlattenAppend(a[1..], b);
    } else {
      assert a + b == b;
    }
  }

  /** Every record of length m adds m bytes. */
  lemma {:induction false} FlattenLength(rs: seq<seq<Byte>>, m: nat)
    requires forall i :: 0 <= i < |rs| ==> |rs[i]| == m
    ensures |Flatten(rs)| == m * |rs|
  {
    if |rs| > 0 {
      FlattenLength(rs[1..], m);
    }
  }

  // ---------------------------------------------------------------- file names

  /** name[-2:]: the last two characters, or the whole name when it is shorter. */
  function LastTwo(name: string): (t: string)
    ensures |t| == if |name| < 2 then |name| else 2
  {
    if |name| <= 2 then name else name[|name| - 2..]
  }

  /** is_binary_file: the lower-cased name ends with "b" or ".b", or has a 'b' among
      its last two characters. */
  predicate IsBinaryFile(name: string)
  {
    var l := Lower(name);
    EndsWith(l, "b") || EndsWith(l, ".b") || 'b' in LastTwo(l)
  }

  /** The two endswith tests add nothing: a name counts as binary exactly when a
      'b' is one of the last two characters of its lower-cased form. */
  lemma IsBinaryFileSpec(name: string)
    ensures IsBinaryFile(name) <==> 'b' in LastTwo(Lower(name))
  {
    var l := Lower(name);
    if EndsWith(l, "b") || EndsWith(l, ".b") {
      var t := LastTwo(l);
      assert l[|l| - 1] == 'b';
      assert t[|t| - 1] == l[|l| - 1];
    }
  }
}
