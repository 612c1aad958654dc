/** The byte framing of the RPC library (ulib/app/rpclib/rpclib.cpp): encoding calls, decoding a stream of
    them piece by piece, and writing responses through a small buffer. */
module RpcFraming {
  newtype Byte = x: int | 0 <= x < 256

  /** An RPC call or a response: an id and its body. */
  datatype Call = Call(id: Byte, body: seq<Byte>)

  const MAX_BODY: nat := 0x7FFF_FFFA   // sizes are kept in an `int`

  // ---------- Frames ----------

  /** `*(uint32_t *)p`, least significant byte first. */
  function Le32(s: seq<Byte>): nat
    requires |s| >= 4
  {
    s[0] as nat + 0x100 * s[1] as nat + 0x1_0000 * s[2] as nat + 0x100_0000 * s[3] as nat
  }

  function Word(n: nat): (s: seq<Byte>)
    requires n < 0x1_0000_0000
    ensures |s| == 4 && Le32(s) == n
  {
    var b0, b1, b2, b3 := n % 0x100, n / 0x100 % 0x100, n / 0x1_0000 % 0x100, n / 0x100_0000;
    assert n == b0 + 0x100 * b1 + 0x1_0000 * b2 + 0x100_0000 * b3;
    [b0 as Byte, b1 as Byte, b2 as Byte, b3 as Byte]
  }

  /** Size, id and body of a call. */
  function Frame(c: Call): (s: seq<Byte>)
    requires |c.body| <= MAX_BODY
    ensures |s| == |c.body| + 5
  {
    Word(|c.body| + 5) + [c.id] + c.body
  }

  ghost predicate Fit(cs: seq<Call>) { forall k :: 0 <= k < |cs| ==> |cs[k].body| <= MAX_BODY }

  ghost function Frames(cs: seq<Call>): seq<Byte>
    requires Fit(cs)
  {
    if cs == [] then [] else Frame(cs[0]) + Frames(cs[1..])
  }

  lemma {:induction false} FramesConcat(a: seq<Call>, b: seq<Call>)
    requires Fit(a) && Fit(b)
    ensures Fit(a + b) && Frames(a + b) == Frames(a) + Frames(b)
  {
    hide Frame;
    if a == [] {
      assert a + b == b && [] + Frames(b) == Frames(b);
    } else {
      FramesConcat(a[1..], b);
      assert (a + b)[1..] == a[1..] + b && (a + b)[0] == a[0];
      assert Frame(a[0]) + (Frames(a[1..]) + Frames(b)) == (Frame(a[0]) + Frames(a[1..])) + Frames(b);
    }
  }

  // ---------- Decoding ----------

  /** The complete calls at the front of `s`, how many bytes they are, and whether a size too small for a
      call stopped the decoding.  A size of zero stops it too, silently. */
  datatype Parsed = Parsed(calls: seq<Call>, used: nat, corrupt: bool)

  function Parse(s: seq<Byte>): (r: Parsed)
    ensures r.used <= |s|
  {
    if |s| < 4 || Le32(s) > |s| || Le32(s) == 0 then Parsed([], 0, false)
    else if Le32(s) <= 4 then Parsed([], 0, true)
    else
      var n := Le32(s);
      var rest := Parse(s[n..]);
      Parsed([Call(s[4], s[5..n])] + rest.calls, n + rest.used, rest.corrupt)
  }

  /** There is a call at the front of `s`. */
  predicate Whole(s: seq<Byte>) { |s| >= 4 && 4 < Le32(s) <= |s| }

  lemma ParseWhole(s: seq<Byte>)
    requires Whole(s)
    ensures var n, rest := Le32(s), Parse(s[Le32(s)..]);
            Parse(s) == Parsed([Call(s[4], s[5..n])] + rest.calls, n + rest.used, rest.corrupt)
  {
  }

  lemma Extend(s: seq<Byte>, t: seq<Byte>)
    requires |s| >= 4
    ensures Le32(s + t) == Le32(s)
    ensures Whole(s) ==> var n := Le32(s); (s + t)[n..] == s[n..] + t && (s + t)[4] == s[4] && (s + t)[5..n] == s[5..n]
    ensures Whole(s) ==> Whole(s + t)
  {
  }

  /** Decoding `s + t` continues where decoding `s` has stopped. */
  ghost predicate Continues(s: seq<Byte>, t: seq<Byte>) {
    var p := Parse(s);
    var q := Parse((s + t)[p.used..]);
    Parse(s + t) == if p.corrupt then p else Parsed(p.calls + q.calls, p.used + q.used, q.corrupt)
  }

  lemma ContinuesAfterCall(s: seq<Byte>, t: seq<Byte>)
    requires Whole(s) && Continues(s[Le32(s)..], t)
    ensures Continues(s, t)
  {
    hide Parse, Le32;
    var n := Le32(s);
    Extend(s, t);
    ParseWhole(s);
    ParseWhole(s + t);
    hide Whole;
    var rest := s[n..] + t;
    assert (s + t)[n..] == rest;
    var c, p := [Call(s[4], s[5..n])], Parse(s[n..]);
    assert Parse(s).used == n + p.used && Parse(s).corrupt == p.corrupt && Parse(s).calls == c + p.calls;
    assert Parse(s + t) == Parsed(c + Parse(rest).calls, n + Parse(rest).used, Parse(rest).corrupt);
    var u := (s + t)[n + p.used..];
    assert u == rest[p.used..];
    assert (c + p.calls) + Parse(u).calls == c + (p.calls + Parse(u).calls);
  }

  lemma ContinuesFromStart(s: seq<Byte>, t: seq<Byte>)
    requires !Whole(s)
    ensures Continues(s, t)
  {
    if |s| >= 4 { Extend(s, t); }
    assert (s + t)[0..] == s + t;
    assert Parse(s).calls == [] && Parse(s).used == 0;
    assert Parse(s).corrupt ==> Parse(s + t) == Parse(s);
    hide Parse, Whole, Le32;
    assert [] + Parse(s + t).calls == Parse(s + t).calls;
  }

  /** Decoding more bytes continues where decoding the first of them has stopped. */
  lemma {:induction false} ParseMore(s: seq<Byte>, t: seq<Byte>)
    ensures Continues(s, t)
  {
    if Whole(s) {
      ParseMore(s[Le32(s)..], t);
      ContinuesAfterCall(s, t);
    } else {
      ContinuesFromStart(s, t);
    }
  }

  /** Decoding what has been encoded gives it back. */
  lemma {:induction false} ParseFrames(cs: seq<Call>)
    requires Fit(cs)
    ensures Parse(Frames(cs)) == Parsed(cs, |Frames(cs)|, false)
  {
    if cs != [] {
      var f, rest := Frame(cs[0]), Frames(cs[1..]);
      ParseFrames(cs[1..]);
      var s, n := f + rest, |f|;
      assert s[..4] == Word(n) && Le32(s) == Le32(s[..4]) == n;
      assert s[n..] == rest && s[4] == cs[0].id && s[5..n] == cs[0].body;
      hide Frame, Word, Le32;
      ParseWhole(s);
      assert [Call(s[4], s[5..n])] + cs[1..] == cs;
    }
  }

  /** A frame is its own size, least significant byte first, the id and the body. */
  lemma FrameLayout(c: Call)
    requires |c.body| <= MAX_BODY
    ensures var s, n := Frame(c), |c.body| + 5;
            && s[0] as nat == n % 0x100 && s[1] as nat == n / 0x100 % 0x100
            && s[2] as nat == n / 0x1_0000 % 0x100 && s[3] as nat == n / 0x100_0000
            && s[4] == c.id && s[5..] == c.body
  {
  }

  /** The four bytes of a size are those it is encoded in. */
  lemma SizeBytes(s: seq<Byte>)
    requires |s| >= 4
    ensures Le32(s) < 0x1_0000_0000 && s[..4] == Word(Le32(s))
  {
    var n := Le32(s);
    assert n % 0x100 == s[0] as nat && n / 0x100 == s[1] as nat + 0x100 * s[2] as nat + 0x1_0000 * s[3] as nat;
    assert n / 0x1_0000 == s[2] as nat + 0x100 * s[3] as nat && n / 0x100_0000 == s[3] as nat;
  }

  lemma WholeIsFrame(s: seq<Byte>)
    requires Whole(s) && |s| <= MAX_BODY
    ensures s[..Le32(s)] == Frame(Call(s[4], s[5..Le32(s)]))
  {
    var n := Le32(s);
    SizeBytes(s);
    hide Word, Le32;
    assert s[..n] == s[..4] + [s[4]] + s[5..n];
  }

  /** The bytes consumed are the frames of the calls found; the rest does not start with a whole call, and is
      corrupt exactly if it starts with a size from one to four. */
  ghost predicate Exact(s: seq<Byte>) {
    var p := Parse(s);
    && Fit(p.calls) && s[..p.used] == Frames(p.calls) && !Whole(s[p.used..])
    && (p.corrupt <==> |s| - p.used >= 4 && 1 <= Le32(s[p.used..]) <= 4)
  }

  lemma ExactAfterCall(s: seq<Byte>)
    requires Whole(s) && |s| <= MAX_BODY && Exact(s[Le32(s)..])
    ensures Exact(s)
  {
    hide Parse, Le32, Frame;
    var n, c, rest := Le32(s), Call(s[4], s[5..Le32(s)]), Parse(s[Le32(s)..]);
    ParseWhole(s);
    WholeIsFrame(s);
    hide Whole;
    var calls, used := [c] + rest.calls, n + rest.used;
    assert calls[1..] == rest.calls && calls[0] == c;
    assert s[..used] == s[..n] + s[n..][..rest.used];
    assert s[n..][rest.used..] == s[used..];
  }

  lemma ExactAtEnd(s: seq<Byte>)
    requires !Whole(s)
    ensures Exact(s)
  {
    assert s[0..] == s && s[..0] == [];
  }

  /** So it is for all bytes. */
  lemma {:induction false} ParsedIsFrames(s: seq<Byte>)
    requires |s| <= MAX_BODY
    ensures Exact(s)
  {
    hide Exact;
    if Whole(s) {
      ParsedIsFrames(s[Le32(s)..]);
      ExactAfterCall(s);
    } else {
      ExactAtEnd(s);
    }
  }

  // ---------- The encoder ----------

  /** `rpc_proto`: calls are packed into a buffer of the caller's. */
  class RpcProto {
    const buf: array?<Byte>
    var pos: nat
    var left: nat

    ghost predicate Valid()
      reads this
    {
      buf != null ==> pos + left == buf.Length
    }

    /** The encoded message. */
    ghost function Message(): seq<Byte>
      requires Valid()
      reads this, buf
    {
      if buf == null then [] else buf[..pos]
    }

    constructor (buf: array?<Byte>)
      ensures Valid() && this.buf == buf && Message() == []
    {
      this.buf, pos, left := buf, 0, if buf == null then 0 else buf.Length;
    }

    /** `put`: the call is appended, unless there is no room for it. */
    method Put(id: Byte, data: seq<Byte>) returns (ok: bool)
      requires Valid() && |data| <= MAX_BODY
      modifies this, buf
      ensures Valid() && ok == (buf != null && |data| + 5 <= old(left))
      ensures ok ==> Message() == old(Message()) + Frame(Call(id, data)) && left == old(left) - (|data| + 5)
      ensures !ok ==> Message() == old(Message()) && left == old(left)
    {
      if buf != null && |data| + 5 <= left {
        Store(buf, pos, Word(|data| + 5) + [id] + data);
        pos := pos + 5 + |data|;
        left := left - (5 + |data|);
        return true;
      }
      return false;
    }
  }

  // ---------- The decoder ----------

  /** `const_pack`: a cursor over the packs in a buffer. */
  class ConstPack {
    const buf: seq<Byte>
    var paklen: int      // the size of the current pack; negated or zero at the end
    var left: nat        // how many bytes follow it
    var pos: int         // where it starts, or -1 if there is none at all

    /** The cursor is inside its buffer. */
    ghost predicate Valid()
      reads this
    {
      && -1 <= pos && (pos == -1 ==> paklen == 0 && left == 0)
      && (pos >= 0 ==> pos + Size() + left == |buf|)
      && (paklen > 0 ==> |buf| - pos >= 4 && Le32(buf[pos..]) == paklen)
    }

    /** `size`. */
    function Size(): nat
      reads this
    {
      if paklen > 0 then paklen else -paklen
    }

    /** The bytes up to the end of the current pack, which are what has been consumed once the cursor is at
        the end. */
    function Passed(): int
      reads this
    {
      if pos == -1 then 0 else pos + Size()
    }

    constructor (data: seq<Byte>)
      ensures Valid() && buf == data
      ensures paklen > 0 ==> pos == 0
      ensures paklen <= 0 ==> Passed() == 0 && Parse(data) == Parsed([], 0, false)
    {
      buf := data;
      if |data| >= 4 && Le32(data) <= |data| {
        paklen, pos, left := Le32(data), 0, |data| - Le32(data);
      } else {
        paklen, left, pos := 0, 0, -1;
      }
    }

    /** The call in the current pack. */
    function Current(): Call
      requires Valid() && paklen > 4
      reads this
    {
      Call(buf[pos + 4], buf[pos + 5..pos + paklen])
    }

    lemma CurrentIsWhole()
      requires Valid() && paklen > 4
      ensures pos <= |buf| && Whole(buf[pos..]) && Le32(buf[pos..]) == paklen && pos + paklen <= |buf|
    {
    }

    /** `operator++`. */
    method Next()
      requires Valid() && paklen > 4
      modifies this
      ensures Valid()
      ensures var p := old(pos + paklen);
              && (paklen > 0 ==> pos == p)
              && (paklen <= 0 ==> Passed() == p && Parse(buf[p..]) == Parsed([], 0, false))
    {
      if left >= 4 {
        var next := pos + paklen;
        var nextlen := Le32(buf[next..]);
        if nextlen <= left {
          paklen := nextlen;
          left := left - nextlen;
          pos := next;
          return;
        }
      }
      if paklen > 0 { paklen := -paklen; }
    }
  }

  // ---------- Responses ----------

  /** How an attempt to write to the socket ends. */
  datatype Attempt = Wrote(n: nat) | Interrupted | Broken

  ghost predicate Reliable(world: seq<Attempt>) { forall k :: 0 <= k < |world| ==> world[k] != Broken }

  const RESP_BUFLEN: nat := 32

  /** `rpc_resp`: a buffered writer of responses. */
  class RpcResp {
    const buf: array<Byte>
    var pos: nat
    var out: seq<Byte>          // what has been written to the socket
    var world: seq<Attempt>     // how the next attempts to write end; after these everything is written

    ghost predicate Valid()
      reads this
    {
      buf.Length == RESP_BUFLEN && pos <= RESP_BUFLEN
    }

    /** Everything put so far. */
    ghost function Pending(): seq<Byte>
      requires Valid()
      reads this, buf
    {
      out + buf[..pos]
    }

    constructor (world: seq<Attempt>)
      ensures Valid() && fresh(buf) && Pending() == [] && pos == 0 && this.world == world
    {
      buf := new Byte[RESP_BUFLEN];
      pos, out := 0, [];
      this.world := world;
    }

    /** `write(_cfd, _buf + from, n)`: some of the bytes are written, or none and the call was interrupted or
        failed. */
    method Write(from: nat, n: nat) returns (nb: int, again: bool)
      requires Valid() && 0 < n && from + n <= buf.Length
      modifies this`out, this`world
      ensures nb <= n && (nb > 0 ==> out == old(out) + buf[from..from + nb])
      ensures nb <= 0 ==> out == old(out)
      ensures nb <= 0 && again ==> |world| < |old(world)|
      ensures nb <= 0 && !again ==> !Reliable(old(world))
      ensures Reliable(old(world)) ==> Reliable(world)
      ensures |world| <= |old(world)|
    {
      var attempt := if world == [] then Wrote(n) else world[0];
      if world != [] { world := world[1..]; }
      match attempt
      case Wrote(k) =>
        nb, again := if k == 0 then 1 else if k < n then k else n, false;
        out := out + buf[from..from + nb];
      case Interrupted => nb, again := -1, true;
      case Broken => nb, again := -1, false;
    }

    /** `flush`. */
    method Flush() returns (ok: bool)
      requires Valid()
      modifies this`out, this`world, this`pos
      ensures Valid()
      ensures ok ==> pos == 0 && out == old(Pending())
      ensures !ok ==> pos == old(pos) && out <= old(Pending())
      ensures Reliable(old(world)) ==> ok && Reliable(world)
    {
      var size := pos;
      var nw := 0;
      while nw < size
        invariant 0 <= nw <= size == pos == old(pos) && out == old(out) + buf[..nw]
        invariant Reliable(old(world)) ==> Reliable(world)
        decreases size - nw, |world|
      {
        var nb, again := Write(nw, size - nw);
        if nb <= 0 {
          if again { continue; }
          return false;
        }
        assert buf[..nw] + buf[nw..nw + nb] == buf[..nw + nb];
        nw := nw + nb;
      }
      pos := 0;
      return true;
    }

    /** `memcpy(_pos, p, n)`. */
    method Copy(p: seq<Byte>)
      requires Valid() && pos + |p| <= RESP_BUFLEN
      modifies this`pos, buf
      ensures Valid() && pos == old(pos) + |p| && Pending() == old(Pending()) + p
    {
      ghost var was := buf[..pos];
      for i := 0 to |p|
        invariant Valid() && pos == old(pos) && buf[..pos] == was && buf[pos..pos + i] == p[..i]
      {
        buf[pos + i] := p[i];
      }
      assert buf[..pos + |p|] == was + p;
      pos := pos + |p|;
    }

    /** `put`: a response of any size goes through the buffer. */
    method Put(id: Byte, data: seq<Byte>) returns (ok: bool)
      requires Valid() && |data| <= MAX_BODY
      modifies this, buf
      ensures Valid()
      ensures ok ==> Pending() == old(Pending()) + Frame(Call(id, data))
      ensures !ok ==> out <= old(Pending()) + Frame(Call(id, data))
      ensures Reliable(old(world)) ==> ok && Reliable(world)
    {
      if pos > RESP_BUFLEN - 5 {
        ok := Flush();
        if !ok { return; }
      }
      assert Pending() == old(Pending());
      ghost var target := Pending() + Frame(Call(id, data));
      Copy(Word(|data| + 5) + [id]);
      var p := data;
      var left := RESP_BUFLEN - pos;
      assert Pending() + p == target;
      hide Frame, Word;
      while |p| > left
        invariant Valid() && left == RESP_BUFLEN - pos && Pending() + p == target
        invariant Reliable(old(world)) ==> Reliable(world)
        decreases |p|, pos
      {
        Cut(Pending(), p, left);
        Copy(p[..left]);
        p := p[left..];
        ghost var pending := Pending();
        ok := Flush();
        if !ok {
          assert out <= pending && pending + p == target;
          return;
        }
        left := RESP_BUFLEN;
        assert buf[..0] == [];
      }
      Copy(p);
      return true;
    }
  }

  lemma Cut(s: seq<Byte>, p: seq<Byte>, k: nat)
    requires k <= |p|
    ensures (s + p[..k]) + p[k..] == s + p
  {
    assert p[..k] + p[k..] == p;
  }

  // ---------- Running calls ----------

  /** What a stub does: it may fail, and it puts responses. */
  datatype Outcome = Outcome(failed: bool, responses: seq<Call>)

  /** The table of stubs.  What they do may depend on the calls they have served before. */
  datatype Stubs = Stubs(ids: set<Byte>, act: (seq<Call>, Call) -> Outcome)

  /** Responses fit into frames. */
  ghost predicate StubsOk(stubs: Stubs) { forall h, c :: Fit(stubs.act(h, c).responses) }

  /** The stubs invoked, the responses sent, and whether a stub failed. */
  datatype Ran = Ran(invoked: seq<Call>, sent: seq<Byte>, failed: bool)

  /** Running calls in order after `h` has been served: ids without a stub are skipped, and a failure ends it. */
  ghost function Run(stubs: Stubs, h: seq<Call>, cs: seq<Call>): Ran
    requires StubsOk(stubs)
    decreases |cs|
  {
    if cs == [] then Ran([], [], false)
    else if cs[0].id !in stubs.ids then Run(stubs, h, cs[1..])
    else
      var o := stubs.act(h, cs[0]);
      if o.failed then Ran([cs[0]], Frames(o.responses), true) else
        var r := Run(stubs, h + [cs[0]], cs[1..]);
        Ran([cs[0]] + r.invoked, Frames(o.responses) + r.sent, r.failed)
  }

  /** One run after the other. */
  ghost function Then(r: Ran, q: Ran): Ran {
    if r.failed then r else Ran(r.invoked + q.invoked, r.sent + q.sent, q.failed)
  }

  /** Running calls in two portions is running them at once. */
  lemma {:induction false} RunMore(stubs: Stubs, h: seq<Call>, a: seq<Call>, b: seq<Call>)
    requires StubsOk(stubs)
    ensures Run(stubs, h, a + b) == Then(Run(stubs, h, a), Run(stubs, h + Run(stubs, h, a).invoked, b))
    decreases |a|
  {
    if a == [] {
      assert a + b == b && h + [] == h;
      var r := Run(stubs, h, b);
      assert [] + r.invoked == r.invoked && [] + r.sent == r.sent;
    } else {
      assert (a + b)[1..] == a[1..] + b && (a + b)[0] == a[0];
      if a[0].id !in stubs.ids {
        RunMore(stubs, h, a[1..], b);
      } else if !stubs.act(h, a[0]).failed {
        var h', o := h + [a[0]], Frames(stubs.act(h, a[0]).responses);
        RunMore(stubs, h', a[1..], b);
        var r := Run(stubs, h', a[1..]);
        assert h' + r.invoked == h + ([a[0]] + r.invoked);
        var q := Run(stubs, h' + r.invoked, b);
        assert [a[0]] + (r.invoked + q.invoked) == ([a[0]] + r.invoked) + q.invoked;
        assert o + (r.sent + q.sent) == (o + r.sent) + q.sent;
      }
    }
  }

  /** The calls whose ids have stubs. */
  ghost function Known(ids: set<Byte>, cs: seq<Call>): seq<Call> {
    if cs == [] then [] else (if cs[0].id in ids then [cs[0]] else []) + Known(ids, cs[1..])
  }

  /** All calls with stubs are invoked in their order, up to the first whose stub fails. */
  lemma {:induction false} RunInvokes(stubs: Stubs, h: seq<Call>, cs: seq<Call>)
    requires StubsOk(stubs)
    ensures var r := Run(stubs, h, cs);
            && r.invoked <= Known(stubs.ids, cs) && (!r.failed ==> r.invoked == Known(stubs.ids, cs))
            && (r.failed ==> r.invoked != [])
            && forall i :: 0 <= i < |r.invoked| ==>
                 (stubs.act(h + r.invoked[..i], r.invoked[i]).failed <==> r.failed && i == |r.invoked| - 1)
    decreases |cs|
  {
    if cs != [] {
      if cs[0].id !in stubs.ids {
        RunInvokes(stubs, h, cs[1..]);
        assert [] + Known(stubs.ids, cs[1..]) == Known(stubs.ids, cs[1..]);
      } else {
        assert h + [] == h && [cs[0]][..0] == [];
        if !stubs.act(h, cs[0]).failed {
          RunInvokes(stubs, h + [cs[0]], cs[1..]);
          FirstInvoked(stubs, h, cs[0], Run(stubs, h + [cs[0]], cs[1..]).invoked);
        }
      }
    }
  }

  lemma FirstInvoked(stubs: Stubs, h: seq<Call>, c: Call, rest: seq<Call>)
    ensures forall i :: 1 <= i <= |rest| ==>
              ([c] + rest)[i] == rest[i - 1] && h + ([c] + rest)[..i] == (h + [c]) + rest[..i - 1]
    ensures h + ([c] + rest)[..0] == h
  {
  }

  /** What the calls invoked have put is sent in their order. */
  ghost function Responses(stubs: Stubs, h: seq<Call>, invoked: seq<Call>): seq<Byte>
    requires StubsOk(stubs)
    decreases |invoked|
  {
    if invoked == [] then [] else
      Frames(stubs.act(h, invoked[0]).responses) + Responses(stubs, h + [invoked[0]], invoked[1..])
  }

  lemma {:induction false} RunSends(stubs: Stubs, h: seq<Call>, cs: seq<Call>)
    requires StubsOk(stubs)
    ensures Run(stubs, h, cs).sent == Responses(stubs, h, Run(stubs, h, cs).invoked)
    decreases |cs|
  {
    if cs != [] {
      if cs[0].id !in stubs.ids {
        RunSends(stubs, h, cs[1..]);
      } else if stubs.act(h, cs[0]).failed {
        var o := Frames(stubs.act(h, cs[0]).responses);
        assert Responses(stubs, h + [cs[0]], []) == [] && o + [] == o;
        assert [cs[0]][1..] == [];
      } else {
        RunSends(stubs, h + [cs[0]], cs[1..]);
        var rest := Run(stubs, h + [cs[0]], cs[1..]).invoked;
        assert ([cs[0]] + rest)[1..] == rest;
      }
    }
  }

  /** What decoding all the bytes `s` at once and running the calls amounts to. */
  ghost function Served(stubs: Stubs, s: seq<Byte>): Ran
    requires StubsOk(stubs)
  {
    Run(stubs, [], Parse(s).calls)
  }

  /** Serving calls that were encoded is running them. */
  lemma ServedFrames(stubs: Stubs, cs: seq<Call>)
    requires StubsOk(stubs) && Fit(cs)
    ensures Served(stubs, Frames(cs)) == Run(stubs, [], cs)
  {
    ParseFrames(cs);
  }

  lemma NextResponse(sent: seq<Byte>, cs: seq<Call>, i: nat)
    requires Fit(cs) && i < |cs|
    ensures Fit(cs[..i]) && Fit(cs[..i + 1]) && cs[i] == Call(cs[i].id, cs[i].body)
    ensures sent + Frames(cs[..i]) + Frame(cs[i]) == sent + Frames(cs[..i + 1]) <= sent + Frames(cs)
  {
    assert Fit(cs[..i]) && Fit(cs[..i + 1]) && Fit(cs[i + 1..]);
    hide *;
    FramesAt(cs, i);
    Grouped(sent, Frames(cs[..i]), Frame(cs[i]), Frames(cs[i + 1..]));
  }

  lemma FramesAt(cs: seq<Call>, i: nat)
    requires Fit(cs) && i < |cs| && Fit(cs[..i]) && Fit(cs[..i + 1]) && Fit(cs[i + 1..])
    ensures Frames(cs[..i + 1]) == Frames(cs[..i]) + Frame(cs[i])
    ensures Frames(cs) == (Frames(cs[..i]) + Frame(cs[i])) + Frames(cs[i + 1..])
  {
    assert Fit([cs[i]]);
    hide *;
    CallsAt(cs, i);
    OneFrame(cs[i]);
    FramesConcat(cs[..i], [cs[i]]);
    FramesConcat(cs[..i + 1], cs[i + 1..]);
  }

  lemma CallsAt(cs: seq<Call>, i: nat)
    requires i < |cs|
    ensures cs[..i] + [cs[i]] == cs[..i + 1] && cs[..i + 1] + cs[i + 1..] == cs
  {
  }

  lemma OneFrame(c: Call)
    requires |c.body| <= MAX_BODY
    ensures Frames([c]) == Frame(c)
  {
    assert Frames([c]) == Frame(c) + [];
    hide Frame;
  }

  lemma Grouped(s: seq<Byte>, a: seq<Byte>, f: seq<Byte>, b: seq<Byte>)
    ensures s + a + f == s + (a + f) <= s + ((a + f) + b)
  {
    assert s + ((a + f) + b) == (s + (a + f)) + b;
  }

  /** The connection a worker serves: the protocol's stubs, the response writer and the stubs invoked so far. */
  class Worker {
    const stubs: Stubs
    const res: RpcResp
    var invoked: seq<Call>

    ghost predicate Valid()
      reads this, res
    {
      StubsOk(stubs) && res.Valid()
    }

    constructor (stubs: Stubs, res: RpcResp)
      requires StubsOk(stubs) && res.Valid()
      ensures Valid() && this.stubs == stubs && this.res == res && invoked == []
    {
      this.stubs, this.res, invoked := stubs, res, [];
    }

    /** Invokes a stub, which gives up and fails when a response cannot be put. */
    method Invoke(c: Call) returns (failed: bool, ghost broke: bool)
      requires Valid() && c.id in stubs.ids
      modifies this`invoked, res, res.buf
      ensures Valid() && invoked == old(invoked) + [c]
      ensures !broke ==> failed == stubs.act(old(invoked), c).failed
      ensures !broke ==> res.Pending() == old(res.Pending()) + Frames(stubs.act(old(invoked), c).responses)
      ensures broke ==> failed && res.out <= old(res.Pending()) + Frames(stubs.act(old(invoked), c).responses)
      ensures Reliable(old(res.world)) ==> !broke && Reliable(res.world)
    {
      var o := stubs.act(invoked, c);
      assert Fit(o.responses);
      ghost var sent := res.Pending();
      invoked := invoked + [c];
      hide Frame, Reliable, StubsOk;
      for i := 0 to |o.responses|
        invariant Valid() && invoked == old(invoked) + [c]
        invariant res.Pending() == sent + Frames(o.responses[..i])
        invariant Reliable(old(res.world)) ==> Reliable(res.world)
      {
        NextResponse(sent, o.responses, i);
        var ok := res.Put(o.responses[i].id, o.responses[i].body);
        if !ok { return true, true; }
      }
      assert o.responses[..|o.responses|] == o.responses;
      failed, broke := o.failed, false;
    }

    /** `rpc_proto::operator()`: runs the calls that are complete; returns the number of bytes consumed, or -1
        if a stub failed, the data are corrupt or a response could not be written (`broke`). */
    method Execute(data: seq<Byte>) returns (nr: int, ghost broke: bool)
      requires Valid()
      modifies this`invoked, res, res.buf
      ensures Valid()
      ensures !broke ==>
                var p, r := Parse(data), Run(stubs, old(invoked), Parse(data).calls);
                && invoked == old(invoked) + r.invoked
                && nr == (if r.failed || p.corrupt then -1 else p.used)
                && res.Pending() == old(res.Pending()) + r.sent && (nr >= 0 ==> res.pos == 0)
      ensures broke ==> nr == -1 && Partial(old(invoked), old(res.Pending()), Parse(data).calls)
      ensures Reliable(old(res.world)) ==> !broke && Reliable(res.world)
    {
      var it := new ConstPack(data);
      ghost var cs: seq<Call>, h, sent := [], invoked, res.Pending();
      DecodingStarts(data);
      assert h + [] == h && sent + [] == sent;
      hide *;
      while it.paklen > 0
        invariant Valid() && it.Valid() && fresh(it) && it.buf == data && Cursor(it, cs)
        invariant Progress(h, sent, cs, false) && (Reliable(old(res.world)) ==> Reliable(res.world))
        decreases if it.paklen > 0 then |data| - it.pos else -1
      {
        var stop;
        stop, cs, broke := Turn(it, cs, h, sent);
        if stop { return -1, broke; }
      }
      Finished(h, sent, cs, false);
      AtEnd(it, cs);
      var ok := res.Flush();
      if !ok {
        AllPartial(h, sent, cs);
        return -1, true;
      }
      nr, broke := it.Passed(), false;
    }

    /** Some of the calls `cs` have been invoked, and what has come out is the beginning of what was to. */
    ghost predicate Partial(h: seq<Call>, sent: seq<Byte>, cs: seq<Call>)
      requires Valid()
      reads this, res
    {
      var r := Run(stubs, h, cs);
      invoked <= h + r.invoked && res.out <= sent + r.sent
    }

    lemma AllPartial(h: seq<Call>, sent: seq<Byte>, cs: seq<Call>)
      requires Valid() && invoked == h + Run(stubs, h, cs).invoked && res.out <= sent + Run(stubs, h, cs).sent
      ensures Partial(h, sent, cs)
    {
      hide Run;
    }

    /** More calls to come do not matter. */
    lemma PartialOfMore(h: seq<Call>, sent: seq<Byte>, a: seq<Call>, b: seq<Call>)
      requires Valid() && Partial(h, sent, a)
      ensures Partial(h, sent, a + b)
    {
      RunMore(stubs, h, a, b);
      hide Run;
      var r, q := Run(stubs, h, a), Run(stubs, h + Run(stubs, h, a).invoked, b);
      assert h + (r.invoked + q.invoked) == (h + r.invoked) + q.invoked;
      assert sent + (r.sent + q.sent) == (sent + r.sent) + q.sent;
    }

    /** The calls `cs` are those before the cursor. */
    ghost predicate Cursor(it: ConstPack, cs: seq<Call>)
      requires it.Valid()
      reads it
    {
      if it.paklen > 0 then 0 <= it.pos <= |it.buf| && Decoded(it.buf, cs, it.pos)
      else Parse(it.buf) == Parsed(cs, it.Passed(), false)
    }

    lemma AtEnd(it: ConstPack, cs: seq<Call>)
      requires it.Valid() && Cursor(it, cs) && it.paklen <= 0
      ensures Parse(it.buf) == Parsed(cs, it.Passed(), false)
    {
    }

    /** One turn of the loop: the current call is run and the cursor advances. */
    method Turn(it: ConstPack, ghost cs: seq<Call>, ghost h: seq<Call>, ghost sent: seq<Byte>)
      returns (stop: bool, ghost cs': seq<Call>, ghost broke: bool)
      requires Valid() && it.Valid() && it.paklen > 0 && Cursor(it, cs) && Progress(h, sent, cs, false)
      modifies this`invoked, res, res.buf, it
      ensures Valid() && it.Valid()
      ensures !stop ==> Cursor(it, cs') && Progress(h, sent, cs', false)
      ensures !stop ==> (it.paklen > 0 ==> it.pos > old(it.pos) && it.pos <= |it.buf|)
      ensures stop && !broke ==>
                var p, r := Parse(it.buf), Run(stubs, h, Parse(it.buf).calls);
                && (r.failed || p.corrupt)
                && invoked == h + r.invoked && res.Pending() == sent + r.sent
      ensures stop && broke ==> Partial(h, sent, Parse(it.buf).calls)
      ensures Reliable(old(res.world)) ==> Reliable(res.world) && (stop ==> !broke)
    {
      hide Parse, Run, Decoded, Le32, Frames, Progress, Partial, StubsOk, Reliable, Whole;
      ghost var at := it.pos;
      broke := false;
      if it.paklen <= 4 {
        DecodedCorrupt(it.buf, cs, at);
        Finished(h, sent, cs, false);
        return true, cs, false;
      }
      it.CurrentIsWhole();
      DecodedOne(it.buf, cs, at);
      var c := it.Current();
      cs' := cs + [c];
      var failed;
      failed, broke := Handle(c, h, sent, cs);
      ghost var next := it.pos + it.paklen;
      if failed {
        if broke {
          DecodedRest(it.buf, cs', next);
          PartialOfMore(h, sent, cs', Parse(it.buf[next..]).calls);
        } else {
          Finished(h, sent, cs', failed);
          DecodedFails(stubs, h, it.buf, cs', next);
        }
        return true, cs', broke;
      }
      it.Next();
      DecodedEnds(it.buf, cs', next);
      return false, cs', broke;
    }

    /** The calls `cs` have been run since `h` were all the calls and `sent` all the responses. */
    ghost predicate Progress(h: seq<Call>, sent: seq<Byte>, cs: seq<Call>, failed: bool)
      requires Valid()
      reads this, res, res.buf
    {
      var r := Run(stubs, h, cs);
      r.failed == failed && invoked == h + r.invoked && res.Pending() == sent + r.sent
    }

    lemma Finished(h: seq<Call>, sent: seq<Byte>, cs: seq<Call>, failed: bool)
      requires Valid() && Progress(h, sent, cs, failed)
      ensures var r := Run(stubs, h, cs);
              r.failed == failed && invoked == h + r.invoked && res.Pending() == sent + r.sent
    {
    }

    /** Runs one more call. */
    method Handle(c: Call, ghost h: seq<Call>, ghost sent: seq<Byte>, ghost cs: seq<Call>)
      returns (failed: bool, ghost broke: bool)
      requires Valid() && Progress(h, sent, cs, false)
      modifies this`invoked, res, res.buf
      ensures Valid()
      ensures !broke ==> Progress(h, sent, cs + [c], failed)
      ensures broke ==> failed && Partial(h, sent, cs + [c])
      ensures Reliable(old(res.world)) ==> !broke && Reliable(res.world)
    {
      RunNext(stubs, h, sent, cs, c);
      hide Run, Frames, Reliable;
      failed, broke := false, false;
      if c.id in stubs.ids {
        failed, broke := Invoke(c);
      }
    }

    /** The bytes `s` have been received, `pos` of them consumed, and all their calls have been run. */
    ghost predicate Caught(s: seq<Byte>, pos: nat)
      requires Valid()
      reads this, res, res.buf
    {
      !Parse(s).corrupt && pos == Parse(s).used && Served(stubs, s) == Ran(invoked, res.Pending(), false)
    }

    /** Some of the calls in `s` have been invoked, and what has come out is the beginning of what was to. */
    ghost predicate PartlyServed(s: seq<Byte>)
      requires Valid()
      reads this, res
    {
      invoked <= Served(stubs, s).invoked && res.out <= Served(stubs, s).sent
    }

    /** One turn of the loop of `rpc_server::worker`, after a read. */
    method Serve(data: seq<Byte>, pos: nat, ghost s: seq<Byte>, ghost t: seq<Byte>)
      returns (nr: int, ghost broke: bool)
      requires Valid() && Caught(s, pos) && data == (s + t)[pos..]
      modifies this`invoked, res, res.buf
      ensures Valid()
      ensures !broke ==> invoked == Served(stubs, s + t).invoked && res.Pending() == Served(stubs, s + t).sent
      ensures !broke ==> (nr < 0 <==> Served(stubs, s + t).failed || Parse(s + t).corrupt)
      ensures !broke && nr >= 0 ==> Caught(s + t, pos + nr) && res.pos == 0
      ensures broke ==> nr < 0 && PartlyServed(s + t)
      ensures Reliable(old(res.world)) ==> !broke && Reliable(res.world)
    {
      ServedMore(stubs, s, t);
      ghost var h, sent := invoked, res.Pending();
      hide Parse, Run, Frames, StubsOk, Reliable;
      nr, broke := Execute(data);
    }

    /** The loop of `rpc_server::worker`: whatever is read goes behind what has been read, and the calls that
        have become complete are run.  `pieces` are the pieces in which the stream arrives; `broke` tells that
        a response could not be written. */
    method ServeStream(pieces: seq<seq<Byte>>) returns (ok: bool, ghost broke: bool)
      requires Valid() && invoked == [] && res.Pending() == [] && res.pos == 0
      requires forall k :: 0 <= k < |pieces| ==> pieces[k] != []
      modifies this`invoked, res, res.buf
      ensures Valid()
      ensures !broke ==>
                var s := Received(pieces);
                && invoked == Served(stubs, s).invoked && res.Pending() == Served(stubs, s).sent
                && (ok <==> !Served(stubs, s).failed && !Parse(s).corrupt)
                && (ok ==> res.pos == 0)
      ensures broke ==> !ok && PartlyServed(Received(pieces))
      ensures Reliable(old(res.world)) ==> !broke
    {
      var reqbuf := new Byte[MAX_REQ_LEN];
      var reqlen, pos := 0, 0;
      broke := false;
      NothingServed(stubs);
      assert reqbuf[..0] == [];
      hide Parse, Run, Frames, StubsOk, Reliable, Concat, Served, Received;
      for i := 0 to |pieces|
        invariant Valid() && 0 <= pos <= reqlen < MAX_REQ_LEN && reqbuf[..reqlen] == Concat(pieces[..i])
        invariant Caught(reqbuf[..reqlen], pos) && res.pos == 0 && !broke
        invariant Reliable(old(res.world)) ==> Reliable(res.world)
      {
        hide Caught, PartlyServed;
        ghost var s := reqbuf[..reqlen];
        var piece := if |pieces[i]| <= MAX_REQ_LEN - reqlen then pieces[i] else pieces[i][..MAX_REQ_LEN - reqlen];
        ReceivedPart(pieces, i, piece);
        var nr;
        nr, broke := ReadAndServe(reqbuf, reqlen, pos, piece);
        reqlen := reqlen + |piece|;
        if nr < 0 {
          Stopped(s + piece, Received(pieces)[reqlen..], broke);
          return false, broke;
        }
        pos := pos + nr;
        if reqlen == MAX_REQ_LEN {
          CaughtUp(reqbuf[..reqlen], pos);
          return true, false;
        }
      }
      assert pieces[..|pieces|] == pieces;
      AllReceived(pieces);
      return true, false;
    }

    /** A read and what follows from it. */
    method ReadAndServe(reqbuf: array<Byte>, reqlen: nat, pos: nat, piece: seq<Byte>)
      returns (nr: int, ghost broke: bool)
      requires Valid() && pos <= reqlen <= reqlen + |piece| <= reqbuf.Length && Caught(reqbuf[..reqlen], pos)
      requires reqbuf != res.buf
      modifies this`invoked, res, res.buf, reqbuf
      ensures Valid() && reqbuf[..reqlen + |piece|] == old(reqbuf[..reqlen]) + piece
      ensures var s := old(reqbuf[..reqlen]) + piece;
              && (!broke ==> invoked == Served(stubs, s).invoked && res.Pending() == Served(stubs, s).sent)
              && (!broke ==> (nr < 0 <==> Served(stubs, s).failed || Parse(s).corrupt))
              && (!broke && nr >= 0 ==> Caught(s, pos + nr) && res.pos == 0)
              && (broke ==> nr < 0 && PartlyServed(s))
      ensures Reliable(old(res.world)) ==> !broke && Reliable(res.world)
    {
      hide Parse, Run, Frames, StubsOk, Reliable, Served, PartlyServed;
      ghost var s := reqbuf[..reqlen];
      Store(reqbuf, reqlen, piece);
      assert reqbuf[pos..reqlen + |piece|] == (s + piece)[pos..];
      nr, broke := Serve(reqbuf[pos..reqlen + |piece|], pos, s, piece);
    }

    lemma CaughtUp(s: seq<Byte>, pos: nat)
      requires Valid() && Caught(s, pos)
      ensures invoked == Served(stubs, s).invoked && res.Pending() == Served(stubs, s).sent
      ensures !Served(stubs, s).failed && !Parse(s).corrupt
    {
      hide Served, Parse;
    }

    /** Where the loop ends early, whatever bytes `t` were still to come. */
    lemma Stopped(s: seq<Byte>, t: seq<Byte>, broke: bool)
      requires Valid()
      requires !broke ==> invoked == Served(stubs, s).invoked && res.Pending() == Served(stubs, s).sent
      requires !broke ==> Served(stubs, s).failed || Parse(s).corrupt
      requires broke ==> PartlyServed(s)
      ensures broke ==> PartlyServed(s + t)
      ensures !broke ==> invoked == Served(stubs, s + t).invoked && res.Pending() == Served(stubs, s + t).sent
      ensures !broke ==> Served(stubs, s + t).failed || Parse(s + t).corrupt
    {
      ServedGrows(stubs, s, t);
      hide Served, Parse;
    }
  }

  lemma AllReceived(pieces: seq<seq<Byte>>)
    requires |Concat(pieces)| < MAX_REQ_LEN
    ensures Received(pieces) == Concat(pieces)
  {
  }

  /** What more bytes add; after a failure or corrupt data, nothing. */
  lemma ServedGrows(stubs: Stubs, s: seq<Byte>, t: seq<Byte>)
    requires StubsOk(stubs)
    ensures Served(stubs, s).invoked <= Served(stubs, s + t).invoked
    ensures Served(stubs, s).sent <= Served(stubs, s + t).sent
    ensures Parse(s).corrupt || Served(stubs, s).failed ==>
              Served(stubs, s + t) == Served(stubs, s) && (Served(stubs, s + t).failed || Parse(s + t).corrupt)
  {
    if Parse(s).corrupt || Served(stubs, s).failed { ServedStops(stubs, s, t); } else { ServedMore(stubs, s, t); }
    hide Served, Parse;
  }

  const MAX_REQ_LEN: nat := 0x10_0000

  ghost function Concat(pieces: seq<seq<Byte>>): seq<Byte> {
    if pieces == [] then [] else pieces[0] + Concat(pieces[1..])
  }

  /** What fits into the request buffer of a stream that arrives in pieces. */
  ghost function Received(pieces: seq<seq<Byte>>): seq<Byte> {
    var s := Concat(pieces);
    if |s| <= MAX_REQ_LEN then s else s[..MAX_REQ_LEN]
  }

  lemma {:induction false} ConcatParts(a: seq<seq<Byte>>, b: seq<seq<Byte>>)
    ensures Concat(a + b) == Concat(a) + Concat(b)
  {
    if a == [] {
      assert a + b == b && [] + Concat(b) == Concat(b);
    } else {
      ConcatParts(a[1..], b);
      assert (a + b)[1..] == a[1..] + b && (a + b)[0] == a[0];
      assert a[0] + (Concat(a[1..]) + Concat(b)) == (a[0] + Concat(a[1..])) + Concat(b);
    }
  }

  /** What has been received after piece `i`, which may have been cut to what fits. */
  lemma ReceivedPart(pieces: seq<seq<Byte>>, i: nat, piece: seq<Byte>)
    requires i < |pieces| && |Concat(pieces[..i])| < MAX_REQ_LEN
    requires var n := MAX_REQ_LEN - |Concat(pieces[..i])|;
             piece == if |pieces[i]| <= n then pieces[i] else pieces[i][..n]
    ensures var s, all := Concat(pieces[..i]) + piece, Received(pieces);
            && |s| <= |all| && s + all[|s|..] == all
            && (|s| < MAX_REQ_LEN ==> s == Concat(pieces[..i + 1])) && (|s| == MAX_REQ_LEN ==> s == all)
  {
    ConcatParts(pieces[..i], [pieces[i]]);
    ConcatParts(pieces[..i + 1], pieces[i + 1..]);
    assert pieces[..i] + [pieces[i]] == pieces[..i + 1] && pieces[..i + 1] + pieces[i + 1..] == pieces;
    assert Concat([pieces[i]]) == pieces[i] + [] == pieces[i];
    hide Concat;
    var s, all := Concat(pieces[..i]) + piece, Concat(pieces);
    assert all == Concat(pieces[..i]) + pieces[i] + Concat(pieces[i + 1..]);
    assert s == all[..|s|];
  }

  /** `read(cfd, reqbuf + at, ...)`. */
  method Store(a: array<Byte>, at: nat, t: seq<Byte>)
    requires at + |t| <= a.Length
    modifies a
    ensures a[..at + |t|] == old(a[..at]) + t
  {
    for i := 0 to |t|
      invariant a[..at] == old(a[..at]) && a[at..at + i] == t[..i]
    {
      a[at + i] := t[i];
    }
    assert a[..at + |t|] == a[..at] + a[at..at + |t|];
  }

  lemma NothingServed(stubs: Stubs)
    requires StubsOk(stubs)
    ensures Parse([]) == Parsed([], 0, false) && Served(stubs, []) == Ran([], [], false) && Concat([]) == []
  {
  }

  /** Serving more bytes continues where serving the first of them has stopped. */
  lemma ServedMore(stubs: Stubs, s: seq<Byte>, t: seq<Byte>)
    requires StubsOk(stubs) && !Parse(s).corrupt && !Served(stubs, s).failed
    ensures var p, q := Parse(s), Parse((s + t)[Parse(s).used..]);
            && Parse(s + t) == Parsed(p.calls + q.calls, p.used + q.used, q.corrupt)
            && Served(stubs, s + t) == Then(Served(stubs, s), Run(stubs, Served(stubs, s).invoked, q.calls))
  {
    var q := Parse((s + t)[Parse(s).used..]);
    ParseMore(s, t);
    RunMore(stubs, [], Parse(s).calls, q.calls);
    assert [] + Served(stubs, s).invoked == Served(stubs, s).invoked;
  }

  /** Once a stub has failed or the data are corrupt, more bytes make no difference. */
  lemma ServedStops(stubs: Stubs, s: seq<Byte>, t: seq<Byte>)
    requires StubsOk(stubs) && (Parse(s).corrupt || Served(stubs, s).failed)
    ensures Served(stubs, s + t) == Served(stubs, s)
    ensures Served(stubs, s + t).failed || Parse(s + t).corrupt
  {
    ParseMore(s, t);
    if !Parse(s).corrupt { RunMore(stubs, [], Parse(s).calls, Parse((s + t)[Parse(s).used..]).calls); }
  }

  /** The calls `cs` are what precedes byte `at` of `data`, where decoding goes on. */
  ghost predicate Decoded(data: seq<Byte>, cs: seq<Call>, at: nat)
    requires at <= |data|
  {
    var q := Parse(data[at..]);
    Parse(data) == Parsed(cs + q.calls, at + q.used, q.corrupt)
  }

  lemma DecodingStarts(data: seq<Byte>)
    ensures Decoded(data, [], 0)
  {
    assert data[0..] == data && [] + Parse(data).calls == Parse(data).calls;
  }

  lemma DecodedOne(data: seq<Byte>, cs: seq<Call>, at: nat)
    requires at <= |data| && Decoded(data, cs, at) && Whole(data[at..])
    ensures var n := Le32(data[at..]);
            at + n <= |data| && Decoded(data, cs + [Call(data[at + 4], data[at + 5..at + n])], at + n)
  {
    var s := data[at..];
    var n := Le32(s);
    ParseWhole(s);
    hide Parse, Le32;
    PartsOf(data, at, n);
    var c, rest := [Call(s[4], s[5..n])], Parse(s[n..]);
    assert (cs + c) + rest.calls == cs + (c + rest.calls);
  }

  lemma PartsOf(data: seq<Byte>, at: nat, n: nat)
    requires 5 <= n && at + n <= |data|
    ensures var s := data[at..];
            s[4] == data[at + 4] && s[5..n] == data[at + 5..at + n] && s[n..] == data[at + n..]
  {
  }

  lemma DecodedCorrupt(data: seq<Byte>, cs: seq<Call>, at: nat)
    requires at <= |data| && Decoded(data, cs, at) && |data| - at >= 4 && 0 < Le32(data[at..]) <= 4
    ensures Parse(data).calls == cs && Parse(data).corrupt
  {
  }

  lemma DecodedEnds(data: seq<Byte>, cs: seq<Call>, at: nat)
    requires at <= |data| && Decoded(data, cs, at)
    ensures Parse(data[at..]) == Parsed([], 0, false) ==> Parse(data) == Parsed(cs, at, false)
  {
  }

  lemma DecodedRest(data: seq<Byte>, cs: seq<Call>, at: nat)
    requires at <= |data| && Decoded(data, cs, at)
    ensures Parse(data).calls == cs + Parse(data[at..]).calls
  {
  }

  /** A call that fails is the last one invoked. */
  lemma DecodedFails(stubs: Stubs, h: seq<Call>, data: seq<Byte>, cs: seq<Call>, at: nat)
    requires StubsOk(stubs) && at <= |data| && Decoded(data, cs, at) && Run(stubs, h, cs).failed
    ensures Run(stubs, h, Parse(data).calls) == Run(stubs, h, cs)
  {
    RunMore(stubs, h, cs, Parse(data[at..]).calls);
  }

  /** One more call after some that have not failed. */
  lemma RunNext(stubs: Stubs, h: seq<Call>, sent: seq<Byte>, cs: seq<Call>, c: Call)
    requires StubsOk(stubs) && !Run(stubs, h, cs).failed
    ensures var r, q := Run(stubs, h, cs), Run(stubs, h, cs + [c]);
            if c.id !in stubs.ids then q == r
            else
              var o := stubs.act(h + r.invoked, c);
              && h + q.invoked == h + r.invoked + [c] && sent + q.sent == sent + r.sent + Frames(o.responses)
              && q.failed == o.failed
  {
    hide Run, Frames, Frame, Then;
    var r := Run(stubs, h, cs);
    RunMore(stubs, h, cs, [c]);
    RunOne(stubs, h + r.invoked, c);
    ThenAppends(h, sent, r, Run(stubs, h + r.invoked, [c]));
  }

  lemma ThenAppends(h: seq<Call>, sent: seq<Byte>, r: Ran, q: Ran)
    requires !r.failed
    ensures Then(r, q).failed == q.failed
    ensures h + Then(r, q).invoked == h + r.invoked + q.invoked && sent + Then(r, q).sent == sent + r.sent + q.sent
    ensures q == Ran([], [], false) ==> Then(r, q) == r
  {
    assert h + (r.invoked + q.invoked) == h + r.invoked + q.invoked;
    assert sent + (r.sent + q.sent) == sent + r.sent + q.sent;
    assert r.invoked + [] == r.invoked && r.sent + [] == r.sent;
  }

  lemma RunOne(stubs: Stubs, h: seq<Call>, c: Call)
    requires StubsOk(stubs)
    ensures Run(stubs, h, [c]) ==
            if c.id !in stubs.ids then Ran([], [], false)
            else Ran([c], Frames(stubs.act(h, c).responses), stubs.act(h, c).failed)
  {
    var o := stubs.act(h, c);
    assert [c] + [] == [c] && Frames(o.responses) + [] == Frames(o.responses);
  }
}
