/** The RC4 generator of `t_enc_rc4.c`. */
module Rc4 {
  import opened Words

  /** The generator state: the 256-entry table and the two indices. */
  datatype State = State(s: seq<byte>, i1: byte, i2: byte)

  ghost predicate Permutation(s: seq<byte>) {
    && |s| == 256
    && (forall a, b | 0 <= a < b < 256 :: s[a] != s[b])
    && forall v: byte :: v in s
  }

  function Swap(s: seq<byte>, a: nat, b: nat): (r: seq<byte>)
    requires a < |s| && b < |s|
    ensures |r| == |s|
  {
    s[a := s[b]][b := s[a]]
  }

  lemma SwapKeepsPermutation(s: seq<byte>, a: nat, b: nat)
    requires Permutation(s) && a < 256 && b < 256
    ensures Permutation(Swap(s, a, b))
  {
    var r := Swap(s, a, b);
    forall v: byte
      ensures v in r
    {
      assert v in s;
      var k :| 0 <= k < 256 && s[k] == v;
      assert r[if k == a then b else if k == b then a else k] == v;
    }
  }

  /** A store into an eight-bit variable. */
  function Wrap(x: nat): byte {
    x % 256
  }

  // ---- key schedule ---------------------------------------------------------------------------

  function Identity(): (s: seq<byte>)
    ensures |s| == 256
  {
    seq(256, i requires 0 <= i < 256 => i)
  }

  function NextJ(s: seq<byte>, j: byte, i: nat, key: seq<byte>): byte
    requires |s| == 256 && i < 256 && key != []
  {
    Wrap(j as int + s[i] as int + key[i % |key|] as int)
  }

  /** The table after the rounds from `i` on. */
  function Schedule(s: seq<byte>, j: byte, i: nat, key: seq<byte>): (r: seq<byte>)
    requires |s| == 256 && i <= 256 && key != []
    ensures |r| == 256
    decreases 256 - i
  {
    if i == 256 then s
    else
      var j' := NextJ(s, j, i, key);
      Schedule(Swap(s, i, j'), j', i + 1, key)
  }

  function Keyed(key: seq<byte>): State
    requires key != []
  {
    State(Schedule(Identity(), 0, 0, key), 0, 0)
  }

  lemma {:induction false} SchedulePermutes(s: seq<byte>, j: byte, i: nat, key: seq<byte>)
    requires Permutation(s) && i <= 256 && key != []
    ensures Permutation(Schedule(s, j, i, key))
    decreases 256 - i
  {
    if i < 256 {
      var j' := NextJ(s, j, i, key);
      SwapKeepsPermutation(s, i, j');
      SchedulePermutes(Swap(s, i, j'), j', i + 1, key);
    }
  }

  // ---- key stream -------------------------------------------------------------------------------

  function Next(st: State): (r: State)
    requires |st.s| == 256
    ensures |r.s| == 256
  {
    var i1 := Wrap(st.i1 as int + 1);
    var i2 := Wrap(st.i2 as int + st.s[i1] as int);
    State(Swap(st.s, i1, i2), i1, i2)
  }

  /** The key byte shown by a state that has just been advanced. */
  function KeyByte(st: State): byte
    requires |st.s| == 256
  {
    st.s[Wrap(st.s[st.i1] as int + st.s[st.i2] as int)]
  }

  function After(st: State, n: nat): (r: State)
    requires |st.s| == 256
    ensures |r.s| == 256
    decreases n
  {
    if n == 0 then st else After(Next(st), n - 1)
  }

  function KeyStream(st: State, n: nat): (k: seq<byte>)
    requires |st.s| == 256
    ensures |k| == n
    decreases n
  {
    if n == 0 then [] else [KeyByte(Next(st))] + KeyStream(Next(st), n - 1)
  }

  /** Every key and every number of bytes leaves the table a permutation of 0 .. 255. */
  lemma AlwaysPermutation(key: seq<byte>, n: nat)
    requires key != []
    ensures Permutation(After(Keyed(key), n).s)
  {
    var id := Identity();
    forall v: byte
      ensures v in id
    {
      assert id[v] == v;
    }
    SchedulePermutes(id, 0, 0, key);
    AfterPermutes(Keyed(key), n);
  }

  lemma {:induction false} AfterPermutes(st: State, n: nat)
    requires Permutation(st.s)
    ensures Permutation(After(st, n).s)
    decreases n
  {
    if n > 0 {
      var r := Next(st);
      SwapKeepsPermutation(st.s, r.i1, r.i2);
      AfterPermutes(r, n - 1);
    }
  }

  // ---- encryption ---------------------------------------------------------------------------------

  function XorByte(a: byte, b: byte): byte {
    assert Pow2(8) == 256;
    XorBound(a, b, 8);
    Xor(a, b)
  }

  function XorSeq(d: seq<byte>, k: seq<byte>): (r: seq<byte>)
    requires |d| == |k|
    ensures |r| == |d|
  {
    seq(|d|, i requires 0 <= i < |d| => XorByte(d[i], k[i]))
  }

  /** The key stream depends on the state alone, never on the data. */
  function Crypt(st: State, data: seq<byte>): (r: seq<byte>)
    requires |st.s| == 256
    ensures |r| == |data|
  {
    XorSeq(data, KeyStream(st, |data|))
  }

  lemma {:induction false} StreamSplit(st: State, m: nat, n: nat)
    requires |st.s| == 256
    ensures After(st, m + n) == After(After(st, m), n)
    ensures KeyStream(st, m + n) == KeyStream(st, m) + KeyStream(After(st, m), n)
    decreases m
  {
    hide Next, KeyByte;
    if m > 0 {
      StreamSplit(Next(st), m - 1, n);
    }
  }

  lemma CryptConcat(st: State, a: seq<byte>, b: seq<byte>)
    requires |st.s| == 256
    ensures Crypt(st, a + b) == Crypt(st, a) + Crypt(After(st, |a|), b)
  {
    hide *;
    CryptSplit(st, a, b, |a|, |b|);
  }

  lemma CryptSplit(st: State, a: seq<byte>, b: seq<byte>, m: nat, n: nat)
    requires |st.s| == 256 && m == |a| && n == |b|
    ensures Crypt(st, a + b) == Crypt(st, a) + Crypt(After(st, m), b)
  {
    hide KeyStream, XorSeq, After;
    StreamSplit(st, m, n);
    XorSeqConcat(a, b, KeyStream(st, m), KeyStream(After(st, m), n));
  }

  lemma XorSeqConcat(a: seq<byte>, b: seq<byte>, k: seq<byte>, l: seq<byte>)
    requires |a| == |k| && |b| == |l|
    ensures XorSeq(a + b, k + l) == XorSeq(a, k) + XorSeq(b, l)
  {
    hide XorByte;
    var x, y := XorSeq(a + b, k + l), XorSeq(a, k) + XorSeq(b, l);
    forall i | 0 <= i < |x|
      ensures x[i] == y[i]
    {
    }
  }

  lemma CryptTwice(st: State, data: seq<byte>)
    requires |st.s| == 256
    ensures Crypt(st, Crypt(st, data)) == data
  {
    var k := KeyStream(st, |data|);
    forall i | 0 <= i < |data|
      ensures XorByte(XorByte(data[i], k[i]), k[i]) == data[i]
    {
      XorCancel(data[i], k[i]);
    }
  }

  function Join(chunks: seq<seq<byte>>): seq<byte> {
    if chunks == [] then [] else chunks[0] + Join(chunks[1..])
  }

  /** A sequence of crypt calls on one instance. */
  function CryptCalls(st: State, chunks: seq<seq<byte>>): (r: seq<seq<byte>>)
    requires |st.s| == 256
    ensures |r| == |chunks|
    decreases |chunks|
  {
    if chunks == [] then []
    else [Crypt(st, chunks[0])] + CryptCalls(After(st, |chunks[0]|), chunks[1..])
  }

  lemma {:induction false} CallsAreOneCall(st: State, chunks: seq<seq<byte>>)
    requires |st.s| == 256
    ensures Join(CryptCalls(st, chunks)) == Crypt(st, Join(chunks))
    decreases |chunks|
  {
    if chunks != [] {
      var st' := After(st, |chunks[0]|);
      CallsAreOneCall(st', chunks[1..]);
      CryptConcat(st, chunks[0], Join(chunks[1..]));
      assert CryptCalls(st, chunks)[1..] == CryptCalls(st', chunks[1..]);
    }
  }

  /** Main result: two instances with the same key undo each other, however the sender and
      the receiver cut the text into calls. */
  lemma InstancesUndoEachOther(key: seq<byte>, sent: seq<seq<byte>>, received: seq<seq<byte>>)
    requires key != []
    ensures Join(received) == Join(CryptCalls(Keyed(key), sent)) ==>
              Join(CryptCalls(Keyed(key), received)) == Join(sent)
  {
    CallsAreOneCall(Keyed(key), sent);
    CallsAreOneCall(Keyed(key), received);
    CryptTwice(Keyed(key), Join(sent));
  }

  // ---- the key stream as a run ------------------------------------------------------------------------

  /** Two tables that differ by an exchange of the entries `a` and `b`. */
  ghost predicate Exchanged(s: seq<byte>, r: seq<byte>, a: nat, b: nat) {
    && |s| == 256 && |r| == 256 && a < 256 && b < 256
    && r[a] == s[b] && r[b] == s[a] && forall k | 0 <= k < 256 && k != a && k != b :: r[k] == s[k]
  }

  /** `n` rounds of the key schedule as the tables and indices they go through, from the identity on. */
  ghost predicate ScheduleRun(key: seq<byte>, t: seq<seq<byte>>, j: seq<nat>, n: nat)
    requires key != []
  {
    && |t| == n + 1 && |j| == n + 1 && j[0] == 0
    && |t[0]| == 256 && (forall v | 0 <= v < 256 :: t[0][v] == v)
    && forall i | 0 <= i < n :: ScheduleTurn(key, i, t[i], j[i], t[i + 1], j[i + 1])
  }

  ghost predicate ScheduleTurn(key: seq<byte>, i: nat, s: seq<byte>, j: nat, s': seq<byte>, j': nat)
    requires key != []
  {
    |s| == 256 && i < 256 && j' == (j + s[i] as int + key[i % |key|] as int) % 256 && Exchanged(s, s', i, j')
  }

  /** The tables, the second indices and the bytes of `|k|` steps of the generator. */
  ghost predicate StreamRun(t: seq<seq<byte>>, j: seq<nat>, k: seq<byte>) {
    && |t| == |k| + 1 && |j| == |k| + 1 && j[0] == 0
    && forall n | 0 <= n < |k| :: StreamTurn(n, t[n], j[n], t[n + 1], j[n + 1], k[n])
  }

  ghost predicate StreamTurn(n: nat, s: seq<byte>, j: nat, s': seq<byte>, j': nat, k: byte) {
    var i := (n + 1) % 256;
    && |s| == 256 && j' == (j + s[i] as int) % 256 && Exchanged(s, s', i, j')
    && k == s'[(s'[i] as int + s'[j'] as int) % 256]
  }

  lemma ExchangedIsSwap(s: seq<byte>, r: seq<byte>, a: nat, b: nat)
    requires |s| == 256 && a < 256 && b < 256
    ensures Exchanged(s, r, a, b) <==> r == Swap(s, a, b)
  {
    if Exchanged(s, r, a, b) {
      assert forall k | 0 <= k < 256 :: r[k] == Swap(s, a, b)[k];
    }
  }

  /** The schedule from any point of a run on ends in its last table. */
  lemma {:induction false} ScheduleFollows(key: seq<byte>, t: seq<seq<byte>>, j: seq<nat>, i: nat)
    requires key != [] && ScheduleRun(key, t, j, 256) && i <= 256 && |t[i]| == 256 && j[i] < 256
    ensures Schedule(t[i], j[i], i, key) == t[256]
    decreases 256 - i
  {
    if i < 256 {
      assert ScheduleTurn(key, i, t[i], j[i], t[i + 1], j[i + 1]);
      ExchangedIsSwap(t[i], t[i + 1], i, j[i + 1]);
      ScheduleFollows(key, t, j, i + 1);
    }
  }

  lemma KeyedIsLast(key: seq<byte>, t: seq<seq<byte>>, j: seq<nat>)
    requires key != [] && ScheduleRun(key, t, j, 256)
    ensures Keyed(key) == State(t[256], 0, 0)
  {
    hide Schedule;
    assert t[0] == Identity();
    ScheduleFollows(key, t, j, 0);
  }

  /** From any point of a run on the generator gives its remaining bytes. */
  lemma {:induction false} StreamFollows(t: seq<seq<byte>>, j: seq<nat>, k: seq<byte>, n: nat)
    requires StreamRun(t, j, k) && n <= |k| && |t[n]| == 256 && j[n] < 256
    ensures KeyStream(State(t[n], n % 256, j[n]), |k| - n) == k[n..]
    decreases |k| - n
  {
    if n < |k| {
      assert StreamTurn(n, t[n], j[n], t[n + 1], j[n + 1], k[n]);
      StreamTurnIsNext(n, t[n], j[n], t[n + 1], j[n + 1], k[n]);
      hide Next, KeyByte, StreamTurn;
      StreamFollows(t, j, k, n + 1);
    }
  }

  lemma StreamTurnIsNext(n: nat, s: seq<byte>, j: byte, s': seq<byte>, j': nat, k: byte)
    requires StreamTurn(n, s, j, s', j', k)
    ensures |s'| == 256 && j' < 256
    ensures Next(State(s, n % 256, j)) == State(s', (n + 1) % 256, j')
    ensures k == KeyByte(State(s', (n + 1) % 256, j'))
  {
    assert Wrap(n % 256 + 1) == (n + 1) % 256;
    ExchangedIsSwap(s, s', (n + 1) % 256, j');
  }

  /** `k` are the first bytes of the RC4 key stream for a key. */
  ghost predicate Rc4Stream(key: seq<byte>, k: seq<byte>)
    requires key != []
  {
    exists t, j, u, i2 :: IsRc4Run(key, t, j, u, i2, k)
  }

  ghost predicate IsRc4Run(key: seq<byte>, t: seq<seq<byte>>, j: seq<nat>,
                           u: seq<seq<byte>>, i2: seq<nat>, k: seq<byte>)
    requires key != []
  {
    ScheduleRun(key, t, j, 256) && StreamRun(u, i2, k) && u[0] == t[256]
  }

  /** Every key has exactly one stream of every length, and it is the one a new instance shows. */
  lemma StreamIsUnique(key: seq<byte>, k: seq<byte>)
    requires key != []
    ensures Rc4Stream(key, k) <==> k == KeyStream(Keyed(key), |k|)
  {
    hide KeyStream, Keyed, IsRc4Run;
    if Rc4Stream(key, k) {
      StreamOfRun(key, k);
    }
    var t, j, u, i2, l := RunExists(key, |k|);
    assert IsRc4Run(key, t, j, u, i2, l) && |l| == |k|;
    StreamOfRun(key, l);
  }

  lemma StreamOfRun(key: seq<byte>, k: seq<byte>)
    requires key != [] && Rc4Stream(key, k)
    ensures k == KeyStream(Keyed(key), |k|)
  {
    hide KeyStream, Keyed, IsRc4Run;
    var t, j, u, i2 :| IsRc4Run(key, t, j, u, i2, k);
    RunGives(key, t, j, u, i2, k);
  }

  lemma RunGives(key: seq<byte>, t: seq<seq<byte>>, j: seq<nat>, u: seq<seq<byte>>, i2: seq<nat>, k: seq<byte>)
    requires key != [] && IsRc4Run(key, t, j, u, i2, k)
    ensures k == KeyStream(Keyed(key), |k|)
  {
    hide KeyStream, Keyed, ScheduleTurn, StreamTurn;
    KeyedIsLast(key, t, j);
    LastTable(key, t, j);
    StreamStart(u, i2, k);
  }

  /** Main result: a new instance adds the RC4 stream of its key to the data, bit by bit. */
  lemma CryptIsRc4(key: seq<byte>, data: seq<byte>, k: seq<byte>)
    requires key != [] && Rc4Stream(key, k) && |k| == |data|
    ensures |Crypt(Keyed(key), data)| == |data|
    ensures forall n, b | 0 <= n < |data| && 0 <= b < 8 ::
              Bit(Crypt(Keyed(key), data)[n], b) == (Bit(data[n], b) + Bit(k[n], b)) % 2
  {
    hide Schedule, KeyStream, Rc4Stream, Crypt, Bit;
    StreamOfRun(key, k);
    CryptBits(Keyed(key), data, k);
  }

  lemma StreamStart(u: seq<seq<byte>>, i2: seq<nat>, k: seq<byte>)
    requires StreamRun(u, i2, k) && |u[0]| == 256
    ensures KeyStream(State(u[0], 0, 0), |k|) == k
  {
    hide KeyStream, StreamTurn;
    StreamFollows(u, i2, k, 0);
    assert k[0..] == k;
  }

  lemma CryptBits(st: State, data: seq<byte>, k: seq<byte>)
    requires |st.s| == 256 && KeyStream(st, |data|) == k
    ensures |k| == |data| == |Crypt(st, data)|
    ensures forall n, b | 0 <= n < |data| && 0 <= b < 8 ::
              Bit(Crypt(st, data)[n], b) == (Bit(data[n], b) + Bit(k[n], b)) % 2
  {
    hide Bit, Xor, KeyStream;
    forall n, b | 0 <= n < |data| && 0 <= b < 8
      ensures Bit(Crypt(st, data)[n], b) == (Bit(data[n], b) + Bit(k[n], b)) % 2
    {
      XorBit(data[n], k[n], b);
    }
  }

  lemma LastTable(key: seq<byte>, t: seq<seq<byte>>, j: seq<nat>)
    requires key != [] && ScheduleRun(key, t, j, 256)
    ensures |t[256]| == 256
  {
    assert ScheduleTurn(key, 255, t[255], j[255], t[256], j[256]);
  }

  /** There is such a run for every key and every number of bytes. */
  lemma RunExists(key: seq<byte>, n: nat)
    returns (t: seq<seq<byte>>, j: seq<nat>, u: seq<seq<byte>>, i2: seq<nat>, k: seq<byte>)
    requires key != []
    ensures IsRc4Run(key, t, j, u, i2, k) && |k| == n
  {
    hide ScheduleRun;
    t, j := ScheduleExists(key, 256);
    u, i2, k := StreamExists(t[256], n);
  }

  lemma {:induction false} ScheduleExists(key: seq<byte>, n: nat) returns (t: seq<seq<byte>>, j: seq<nat>)
    requires key != [] && n <= 256
    ensures ScheduleRun(key, t, j, n) && |t[n]| == 256
  {
    if n == 0 {
      return [Identity()], [0];
    }
    t, j := ScheduleExists(key, n - 1);
    var s := t[n - 1];
    var j' := (j[n - 1] + s[n - 1] as int + key[(n - 1) % |key|] as int) % 256;
    ExchangedIsSwap(s, Swap(s, n - 1, j'), n - 1, j');
    assert ScheduleTurn(key, n - 1, s, j[n - 1], Swap(s, n - 1, j'), j');
    ScheduleMore(key, t, j, n, Swap(s, n - 1, j'), j');
    t, j := t + [Swap(s, n - 1, j')], j + [j'];
  }

  lemma ScheduleMore(key: seq<byte>, t: seq<seq<byte>>, j: seq<nat>, n: nat, s': seq<byte>, j': nat)
    requires key != [] && 0 < n <= 256 && ScheduleRun(key, t, j, n - 1)
    requires ScheduleTurn(key, n - 1, t[n - 1], j[n - 1], s', j')
    ensures ScheduleRun(key, t + [s'], j + [j'], n)
  {
    hide ScheduleTurn;
  }

  lemma {:induction false} StreamExists(s: seq<byte>, n: nat)
    returns (u: seq<seq<byte>>, i2: seq<nat>, k: seq<byte>)
    requires |s| == 256
    ensures StreamRun(u, i2, k) && |k| == n && u[0] == s && |u[n]| == 256
    decreases n
  {
    if n == 0 {
      return [s], [0], [];
    }
    u, i2, k := StreamExists(s, n - 1);
    var s0, a := u[n - 1], n % 256;
    var b := (i2[n - 1] + s0[a] as int) % 256;
    var s' := Swap(s0, a, b);
    var c := s'[(s'[a] as int + s'[b] as int) % 256];
    ExchangedIsSwap(s0, s', a, b);
    assert StreamTurn(n - 1, s0, i2[n - 1], s', b, c);
    StreamMore(u, i2, k, s', b, c);
    u, i2, k := u + [s'], i2 + [b], k + [c];
  }

  lemma StreamMore(u: seq<seq<byte>>, i2: seq<nat>, k: seq<byte>, s': seq<byte>, j': nat, c: byte)
    requires StreamRun(u, i2, k) && StreamTurn(|k|, u[|k|], i2[|k|], s', j', c)
    ensures StreamRun(u + [s'], i2 + [j'], k + [c])
  {
    hide StreamTurn;
  }

  /** The 8-bit loop counter reaches the buffer length exactly for calls of up to 255 bytes;
      a longer call never ends. */
  lemma CounterReaches(len: nat)
    ensures (exists k: nat :: RoundCounter(k) >= len) <==> len <= 255
  {
    if len <= 255 {
      assert RoundCounter(len) >= len;
    }
  }

  /** The loop counter of t_enc_rc4_crypt after `k` rounds. */
  function RoundCounter(k: nat): byte {
    k % 256
  }

  // ---- the object ------------------------------------------------------------------------------------

  class Generator {
    const prng: array<byte>
    var i1: byte
    var i2: byte

    ghost predicate Valid()
      reads this
    {
      prng.Length == 256
    }

    ghost function Now(): State
      reads this, prng
      requires Valid()
    {
      State(prng[..], i1, i2)
    }

    constructor (key: seq<byte>)
      requires key != []
      ensures Valid() && fresh(prng)
      ensures Now() == Keyed(key)
    {
      prng := new byte[256](_ => 0);
      new;
      Init(key);
    }

    /** TYPESWAP on two entries of the table. */
    method SwapEntries(a: byte, b: byte)
      requires Valid()
      modifies prng
      ensures prng[..] == Swap(old(prng[..]), a, b)
    {
      var tmp := prng[b];
      prng[b] := prng[a];
      prng[a] := tmp;
    }

    /** t_enc_rc4_init */
    method Init(key: seq<byte>)
      requires Valid() && key != []
      modifies this, prng
      ensures Valid() && Now() == Keyed(key)
    {
      hide Schedule, Swap;
      for i := 0 to 256
        invariant forall k | 0 <= k < i :: prng[k] == k
      {
        prng[i] := i;
      }
      assert prng[..] == Identity();
      i1, i2 := 0, 0;
      var j: byte := 0;
      for i := 0 to 256
        invariant i1 == 0 && i2 == 0
        invariant Schedule(prng[..], j, i, key) == Schedule(Identity(), 0, 0, key)
      {
        ScheduleStep(prng[..], j, i, key);
        j := Wrap(j as int + prng[i] as int + key[i % |key|] as int);
        SwapEntries(i, j);
      }
      ScheduleDone(prng[..], j, key);
    }

    /** The body of the loop in t_enc_rc4_crypt. */
    method NextByte(c: byte) returns (r: byte)
      requires Valid()
      modifies this`i1, this`i2, prng
      ensures Now() == Next(old(Now()))
      ensures r == XorByte(c, KeyByte(Now()))
    {
      i1 := Wrap(i1 as int + 1);
      i2 := Wrap(i2 as int + prng[i1] as int);
      SwapEntries(i1, i2);
      var j := Wrap(prng[i1] as int + prng[i2] as int);
      r := XorByte(c, prng[j]);
    }

    /** t_enc_rc4_crypt: the loop counter has eight bits. */
    method CryptBuffer(inbuf: seq<byte>, outbuf: array<byte>)
      requires Valid() && outbuf != prng
      requires |inbuf| <= 255 && |inbuf| <= outbuf.Length
      modifies this`i1, this`i2, prng, outbuf
      ensures Valid()
      ensures Now() == After(old(Now()), |inbuf|)
      ensures outbuf[..] == Crypt(old(Now()), inbuf) + old(outbuf[|inbuf|..])
    {
      hide After, KeyStream, Crypt, XorByte, Next, KeyByte, Partway;
      ghost var st0, n, out0 := Now(), |inbuf|, outbuf[..];
      ghost var st, done: seq<byte> := st0, [];
      var i: byte := 0;
      CryptStart(st0, inbuf);
      while i < |inbuf|
        invariant i <= n && |done| == i && st == Now()
        invariant Partway(st0, inbuf, st, done)
        invariant outbuf[..] == done + out0[i..]
        decreases n - i
      {
        CryptStep(st0, inbuf, st, done);
        var c := NextByte(inbuf[i]);
        ghost var was := outbuf[..];
        outbuf[i] := c;
        assert outbuf[..] == was[i := c];
        PutNext(done, out0, c);
        st, done := Next(st), done + [c];
        i := Wrap(i as int + 1);
      }
      CryptDone(st0, inbuf, st, done);
    }
  }

  /** `done` has been written and `st` is the state of the generator. */
  ghost predicate Partway(st0: State, data: seq<byte>, st: State, done: seq<byte>) {
    && |st0.s| == 256 && |st.s| == 256 && |done| <= |data|
    && After(st, |data| - |done|) == After(st0, |data|)
    && done + Crypt(st, data[|done|..]) == Crypt(st0, data)
  }

  lemma PutNext(done: seq<byte>, rest: seq<byte>, c: byte)
    requires |done| < |rest|
    ensures (done + rest[|done|..])[|done| := c] == (done + [c]) + rest[|done| + 1..]
  {
  }

  lemma ScheduleStep(s: seq<byte>, j: byte, i: nat, key: seq<byte>)
    requires |s| == 256 && i < 256 && key != []
    ensures var j' := Wrap(j as int + s[i] as int + key[i % |key|] as int);
            Schedule(s, j, i, key) == Schedule(Swap(s, i, j'), j', i + 1, key)
  {
  }

  lemma ScheduleDone(s: seq<byte>, j: byte, key: seq<byte>)
    requires |s| == 256 && key != []
    ensures Schedule(s, j, 256, key) == s
  {
  }

  lemma CryptStart(st: State, data: seq<byte>)
    requires |st.s| == 256
    ensures Partway(st, data, st, [])
  {
    assert data[0..] == data;
  }

  lemma CryptStep(st0: State, data: seq<byte>, st: State, done: seq<byte>)
    requires Partway(st0, data, st, done) && |done| < |data|
    ensures Partway(st0, data, Next(st), done + [XorByte(data[|done|], KeyByte(Next(st)))])
  {
    hide Next, KeyByte, XorByte, After;
    var i := |done|;
    CryptAfter(st, |data| - i);
    var l, r := Crypt(st, data[i..]), [XorByte(data[i], KeyByte(Next(st)))] + Crypt(Next(st), data[i + 1..]);
    forall k | 0 <= k < |l|
      ensures l[k] == r[k]
    {
    }
    assert l == r;
  }

  lemma CryptAfter(st: State, n: nat)
    requires |st.s| == 256 && n > 0
    ensures After(st, n) == After(Next(st), n - 1)
    ensures KeyStream(st, n) == [KeyByte(Next(st))] + KeyStream(Next(st), n - 1)
  {
  }

  lemma CryptDone(st0: State, data: seq<byte>, st: State, done: seq<byte>)
    requires Partway(st0, data, st, done) && |done| == |data|
    ensures st == After(st0, |data|) && done == Crypt(st0, data)
  {
  }

  /** A new instance and one call. */
  method CryptOnce(key: seq<byte>, data: seq<byte>) returns (out: array<byte>)
    requires key != [] && |data| <= 255
    ensures out.Length == |data|
    ensures forall k: seq<byte>, n: nat, b: nat | Rc4Stream(key, k) && |k| == |data| && n < |data| && b < 8 ::
              Bit(out[n], b) == (Bit(data[n], b) + Bit(k[n], b)) % 2
  {
    hide KeyStream, Schedule, XorSeq, Rc4Stream, After, Bit;
    var rc4 := new Generator(key);
    out := new byte[|data|](_ => 0);
    ghost var tail := out[|data|..];
    rc4.CryptBuffer(data, out);
    assert tail == [] && out[..] == Crypt(Keyed(key), data);
    forall k: seq<byte>, n: nat, b: nat | Rc4Stream(key, k) && |k| == |data| && n < |data| && b < 8
      ensures Bit(out[n], b) == (Bit(data[n], b) + Bit(k[n], b)) % 2
    {
      CryptIsRc4(key, data, k);
    }
  }
}
