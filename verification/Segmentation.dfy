/** Decoding does not depend on how TCP cuts the stream (`src/ssr/protocol.rs:76-180`). */
module Segmentation {
  import opened Bytes
  import opened Crypto
  import opened Protocol

  /** What `more` bytes behind the buffer do to the outcome of a step. */
  ghost predicate Extends(e: Env, p: Proto, more: Bytes, before: StepResult, after: StepResult) {
    match before
    case Wait(q) => Step(e, q.Feed(more)) == after
    case Reject(_) => after == before
    case Emit(q, payload) => after == Emit(q.Feed(more), payload)
  }

  lemma SelectUserIdempotent(e: Env, p: Proto, uid: nat, more: Bytes)
    ensures SelectUser(e, SelectUser(e, p, uid).Feed(more), uid) == SelectUser(e, p.Feed(more), uid)
    ensures SelectUser(e, p.Feed(more), uid) == SelectUser(e, p, uid).Feed(more)
  {
  }

  lemma SliceOfExtended(buf: Bytes, more: Bytes, lo: nat, hi: nat)
    requires lo <= hi <= |buf|
    ensures (buf + more)[lo..hi] == buf[lo..hi]
    ensures (buf + more)[hi..] == buf[hi..] + more
  {
  }

  lemma AuthStepExtends(e: Env, q: Proto, more: Bytes)
    requires |q.recvBuf| >= 31 && !AuthStep(e, q).Wait?
    ensures AuthStep(e, q.Feed(more))
         == match AuthStep(e, q)
            case Emit(s, payload) => Emit(s.Feed(more), payload)
            case r => r
  {
    hide U16, Primitives.Mac;
    var buf := q.recvBuf;
    SliceOfExtended(buf, more, 11, 27);
    var head := e.prim.aesDecrypt(q.aesKey, buf[11..27]);
    var length := U16(head[12], head[13]);
    if 31 <= length <= |buf| {
      SliceOfExtended(buf, more, 0, length - 4);
      SliceOfExtended(buf, more, length - 4, length);
      var start: nat := 31 + (U16(head[14], head[15]) as int);
      if start <= length - 4 {
        SliceOfExtended(buf, more, start, length - 4);
      }
    }
  }

  lemma HeaderStepExtends(e: Env, p: Proto, more: Bytes)
    requires !p.hasRecvHeader
    ensures Extends(e, p, more, HeaderStep(e, p), HeaderStep(e, p.Feed(more)))
  {
    hide AuthStep;
    var buf := p.recvBuf;
    if |buf| >= 7 {
      SliceOfExtended(buf, more, 0, 1);
      SliceOfExtended(buf, more, 1, 7);
    }
    if |buf| >= 31 {
      SliceOfExtended(buf, more, 7, 27);
      SliceOfExtended(buf, more, 27, 31);
      var q := SelectUser(e, p, Uid(buf));
      SelectUserIdempotent(e, p, Uid(buf), more);
      if HeaderStep(e, p).Wait? {
        assert HeaderStep(e, p) == AuthStep(e, q);
        assert Uid(q.Feed(more).recvBuf) == Uid(buf) == Uid(p.Feed(more).recvBuf);
      } else {
        if HeaderStep(e, p) == AuthStep(e, q) {
          AuthStepExtends(e, q, more);
        }
      }
    }
  }

  lemma DataStepExtends(e: Env, p: Proto, more: Bytes)
    requires p.hasRecvHeader
    ensures Extends(e, p, more, DataStep(e, p), DataStep(e, p.Feed(more)))
  {
    hide LittleEndian32, WrapAdd32, U16, Primitives.Mac;
    var buf := p.recvBuf;
    if |buf| > 4 {
      SliceOfExtended(buf, more, 0, 2);
      SliceOfExtended(buf, more, 2, 4);
      var length := U16(buf[0], buf[1]);
      if 7 <= length <= |buf| {
        SliceOfExtended(buf, more, 0, length - 4);
        SliceOfExtended(buf, more, length - 4, length);
        var pos: nat := (if buf[4] < 255 then buf[4] as int else U16(buf[5], buf[6]) as int) + 4;
        if pos <= length - 4 {
          SliceOfExtended(buf, more, pos, length - 4);
        }
      }
    }
  }

  lemma StepExtends(e: Env, p: Proto, more: Bytes)
    ensures Extends(e, p, more, Step(e, p), Step(e, p.Feed(more)))
  {
    if p.hasRecvHeader {
      DataStepExtends(e, p, more);
    } else {
      HeaderStepExtends(e, p, more);
    }
  }

  /** Goes on with `more` bytes after a successful decoding. */
  function Continue(e: Env, d: Decoding, more: Bytes): Decoding {
    match d
    case Success(x) => Prepend(x.out, PostDecrypt(e, x.state, more))
    case Failure(_) => d
  }

  lemma {:induction false} DrainExtends(e: Env, p: Proto, more: Bytes)
    ensures Drain(e, p.Feed(more)) == Continue(e, Drain(e, p), more)
    decreases |p.recvBuf|
  {
    hide HeaderStep, DataStep;
    StepExtends(e, p, more);
    match Step(e, p)
    case Wait(q) =>
      PrependNothing(Drain(e, p.Feed(more)));
    case Reject(_) =>
    case Emit(q, payload) =>
      DrainExtends(e, q, more);
      if Drain(e, q).Success? {
        PrependCompose(payload, Drain(e, q).value.out, PostDecrypt(e, Drain(e, q).value.state, more));
      }
  }

  /** Two feeds are one feed of both. */
  lemma PostDecryptAppend(e: Env, p: Proto, a: Bytes, b: Bytes)
    ensures PostDecrypt(e, p, a + b) == Continue(e, PostDecrypt(e, p, a), b)
  {
    assert p.Feed(a).Feed(b) == p.Feed(a + b) by {
      assert p.recvBuf + a + b == p.recvBuf + (a + b);
    }
    DrainExtends(e, p.Feed(a), b);
  }

  // ---- what a successful call leaves behind ----

  /** No packet is whole: nothing is decoded until more bytes arrive. */
  ghost predicate Quiescent(e: Env, p: Proto) {
    Step(e, p) == Wait(p)
  }

  lemma WaitIsQuiescent(e: Env, p: Proto)
    requires Step(e, p).Wait?
    ensures Quiescent(e, Step(e, p).state)
  {
  }

  /** What holds of every state the server is in between two calls. */
  ghost predicate Sound(e: Env, p: Proto) {
    && |p.recvBuf| < MAX_PACKET
    && Quiescent(e, p)
    && UserFromTable(e, p)
  }

  /** An authenticated uid is one of the table's, and its key is the table's; the AES key is
      always the one of the current user key. */
  ghost predicate UserFromTable(e: Env, p: Proto) {
    && (p.userId.Some? ==> p.userId.value in e.users && p.userKey == e.users[p.userId.value])
    && p.aesKey == AesKeyFor(e.prim, p.userKey)
  }

  lemma StepKeepsUser(e: Env, p: Proto)
    requires UserFromTable(e, p)
    ensures !Step(e, p).Reject? ==> UserFromTable(e, Step(e, p).state)
  {
  }

  /** A waiting buffer is shorter than the longest packet. */
  lemma WaitIsShort(e: Env, p: Proto)
    requires Step(e, p).Wait?
    ensures |p.recvBuf| < MAX_PACKET
  {
  }

  lemma {:induction false} DrainLeavesQuiescent(e: Env, p: Proto)
    requires Drain(e, p).Success?
    ensures Quiescent(e, Drain(e, p).value.state) && |Drain(e, p).value.state.recvBuf| < MAX_PACKET
    decreases |p.recvBuf|
  {
    match Step(e, p)
    case Wait(q) =>
      WaitIsQuiescent(e, p);
      WaitIsShort(e, p);
    case Emit(q, payload) =>
      DrainLeavesQuiescent(e, q);
  }

  /** No more payload comes out than bytes went in. */
  lemma {:induction false} DrainShrinks(e: Env, p: Proto)
    requires Drain(e, p).Success?
    ensures |Drain(e, p).value.out| + |Drain(e, p).value.state.recvBuf| <= |p.recvBuf|
    decreases |p.recvBuf|
  {
    if Step(e, p).Emit? {
      DrainShrinks(e, Step(e, p).state);
    }
  }

  /** Bounded buffering: after every successful call the buffer holds fewer than 8192 bytes,
      nothing in it can be decoded yet, and the user is the table's. */
  lemma {:induction false} DrainIsSound(e: Env, p: Proto)
    requires UserFromTable(e, p) && Drain(e, p).Success?
    ensures Sound(e, Drain(e, p).value.state)
    decreases |p.recvBuf|
  {
    StepKeepsUser(e, p);
    DrainLeavesQuiescent(e, p);
    match Step(e, p)
    case Wait(q) =>
    case Emit(q, payload) =>
      DrainIsSound(e, q);
  }

  /** Receiving never touches the send counter, and once the auth packet is in, neither the
      user nor the key. */
  lemma {:induction false} DrainKeepsKey(e: Env, p: Proto)
    requires Drain(e, p).Success?
    ensures Drain(e, p).value.state.packId == p.packId
    ensures p.hasRecvHeader ==>
      && Drain(e, p).value.state.hasRecvHeader
      && Drain(e, p).value.state.userKey == p.userKey
      && Drain(e, p).value.state.userId == p.userId
    decreases |p.recvBuf|
  {
    if Step(e, p).Emit? {
      DrainKeepsKey(e, Step(e, p).state);
    }
  }

  lemma InitialIsSound(e: Env)
    ensures Sound(e, Initial(e))
  {
  }
}
