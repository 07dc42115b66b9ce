/** `push_frame` and `do_return` on the interpreter's own arrays. */
module CallStack {
  import opened Words
  import opened Machine

  /** The copy loop of `do_return`: `n` values from `src` on, moved one by one to `base`. */
  function CopyDown(v: seq<Word>, base: nat, src: nat, n: nat): (w: seq<Word>)
    requires base + n <= |v| && src + n <= |v|
    ensures |w| == |v|
  {
    if n == 0 then v
    else
      var w := CopyDown(v, base, src, n - 1);
      w[base + n - 1 := w[src + n - 1]]
  }

  /** Outside its target the loop changes nothing, whatever the overlap. */
  lemma {:induction false} CopyFrame(v: seq<Word>, base: nat, src: nat, n: nat, i: nat)
    requires base + n <= |v| && src + n <= |v| && i < |v| && !(base <= i < base + n)
    ensures CopyDown(v, base, src, n)[i] == v[i]
  {
    if n > 0 { CopyFrame(v, base, src, n - 1, i); }
  }

  /** Moving down, or not moving, is an exact copy. */
  lemma {:induction false} CopyExact(v: seq<Word>, base: nat, src: nat, n: nat, i: nat)
    requires base <= src && src + n <= |v| && i < n
    ensures CopyDown(v, base, src, n)[base + i] == v[src + i]
  {
    if i < n - 1 {
      CopyExact(v, base, src, n - 1, i);
    } else {
      CopyFrame(v, base, src, n - 1, src + n - 1);
    }
  }

  /** With fewer values than results the loop reads what it wrote: the `k` values just below the base, which are the
      caller's, are repeated. */
  lemma {:induction false} CopyRepeats(v: seq<Word>, base: nat, src: nat, n: nat, i: nat)
    requires src < base && base + n <= |v| && i < n
    ensures CopyDown(v, base, src, n)[base + i] == v[src + i % (base - src)]
    decreases n
  {
    hide CopyDown;
    var k := base - src;
    CopyLast(v, base, src, n);
    Cycle(i, k);
    if i < n - 1 {
      CopyRepeats(v, base, src, n - 1, i);
    } else if i < k {
      CopyFrame(v, base, src, n - 1, src + i);
    } else {
      CopyRepeats(v, base, src, n - 1, i - k);
    }
  }

  lemma Cycle(i: nat, k: nat)
    requires k > 0
    ensures 0 <= i % k < k && i % k == if i < k then i else (i - k) % k
  {
    if i < k { DivUnique(i, k, 0, i); } else { ModShift(i - k, 1, k); }
  }

  /** The last turn of the loop. */
  lemma CopyLast(v: seq<Word>, base: nat, src: nat, n: nat)
    requires n > 0 && base + n <= |v| && src + n <= |v|
    ensures CopyDown(v, base, src, n)
            == CopyDown(v, base, src, n - 1)[base + n - 1 := CopyDown(v, base, src, n - 1)[src + n - 1]]
  {
  }

  class Stacks {
    const vstack: array<Word>
    var vsp: nat
    var frames: seq<Frame>
    const ctrl: array<CtrlFrame>
    var ctrlDepth: nat

    ghost predicate Valid()
      reads this
    {
      vstack.Length == STACK_DEPTH && vsp <= STACK_DEPTH && ctrl.Length == MAX_CTRL_DEPTH && ctrlDepth <= MAX_CTRL_DEPTH
    }

    /** These stacks in place of those of `s`. */
    ghost function In(s: State): State
      requires Valid()
      reads this, vstack, ctrl
    {
      s.(stack := vstack[..vsp], frames := frames, ctrl := ctrl[..ctrlDepth])
    }

    constructor ()
      ensures Valid() && vsp == 0 && frames == [] && ctrlDepth == 0 && fresh(vstack) && fresh(ctrl)
    {
      vstack := new Word[STACK_DEPTH](_ => 0);
      ctrl := new CtrlFrame[MAX_CTRL_DEPTH](_ => CtrlFrame(false, 0, 0));
      vsp, frames, ctrlDepth := 0, [], 0;
    }

    method VPush(x: Word) returns (ok: bool)
      requires Valid()
      modifies this`vsp, vstack
      ensures Valid() && (ok <==> old(vsp) < 256)
      ensures vstack[..vsp] == if ok then old(vstack[..vsp]) + [x] else old(vstack[..vsp])
    {
      if vsp >= STACK_DEPTH { return false; }
      vstack[vsp] := x;
      vsp := vsp + 1;
      return true;
    }

    method VPop() returns (x: Option<Word>)
      requires Valid()
      modifies this`vsp
      ensures Valid() && (x.None? <==> old(vsp) == 0)
      ensures vsp == if x.None? then 0 else old(vsp) - 1
      ensures x.Some? ==> x.value == vstack[vsp]
    {
      if vsp == 0 { return None; }
      vsp := vsp - 1;
      return Some(vstack[vsp]);
    }

    /** The parameter loop of `push_frame`. */
    method PopParams(n: nat, locals: array<Word>) returns (ok: bool)
      requires Valid() && n <= locals.Length && locals != vstack
      modifies this`vsp, locals
      ensures Valid() && (ok <==> n <= old(vsp))
      ensures ok ==> vsp == old(vsp) - n && locals[..n] == vstack[vsp..vsp + n]
      ensures locals[n..] == old(locals[n..])
    {
      var i := n;
      while i > 0
        invariant 0 <= i <= n && Valid() && old(vsp) == vsp + (n - i)
        invariant locals[i..n] == vstack[vsp..vsp + (n - i)] && locals[n..] == old(locals[n..])
      {
        var x := VPop();
        if x.None? { return false; }
        i := i - 1;
        locals[i] := x.value;
        assert locals[i..n] == [x.value] + locals[i + 1..n];
        assert vstack[vsp..vsp + (n - i)] == [vstack[vsp]] + vstack[vsp + 1..vsp + (n - i)];
      }
      return true;
    }

    /** `push_frame`: parameters are popped from the top, last one first, into the first locals. */
    method PushFrame(func: nat, f: Func, ghost s: State) returns (ok: bool)
      requires Valid()
      modifies this
      ensures Valid()
      ensures var o := Machine.PushFrame(old(In(s)), func, f);
              && (ok <==> o.Next?)
              && (ok ==> In(s) == o.s)
              && (!ok ==> frames == old(frames) && ctrlDepth == old(ctrlDepth))
    {
      if |frames| >= CALL_DEPTH { return false; }
      var total := f.params + f.locals;
      if total > MAX_LOCALS { return false; }
      var locals := new Word[MAX_LOCALS](_ => 0);
      var popped := PopParams(f.params, locals);
      if !popped { return false; }
      assert locals[..total] == locals[..f.params] + locals[f.params..][..f.locals];
      assert locals[f.params..][..f.locals] == seq(f.locals, _ => 0);
      assert old(vstack[..vsp])[vsp..] == vstack[vsp..vsp + f.params];
      frames := frames + [Frame(func, 0, locals[..total], ctrlDepth, vsp, f.results)];
      return true;
    }

    method CopyLoop(base: nat, src: nat, n: nat)
      requires Valid() && base + n <= STACK_DEPTH && src + n <= STACK_DEPTH
      modifies vstack
      ensures vstack[..] == CopyDown(old(vstack[..]), base, src, n)
    {
      for i := 0 to n
        invariant vstack[..] == CopyDown(old(vstack[..]), base, src, i)
      {
        vstack[base + i] := vstack[src + i];
      }
    }

    /** `do_return`. */
    method DoReturn(ghost s: State)
      requires Valid() && frames != []
      requires frames[|frames| - 1].vspBase + frames[|frames| - 1].resultCount <= STACK_DEPTH
      requires frames[|frames| - 1].ctrlBase <= MAX_CTRL_DEPTH
      modifies this, vstack
      ensures Valid()
      ensures frames == old(frames)[..|old(frames)| - 1]
      ensures var f := old(frames)[|old(frames)| - 1];
              var src := if old(vsp) >= f.resultCount then old(vsp) - f.resultCount else 0;
              && vsp == f.vspBase + f.resultCount && ctrlDepth == f.ctrlBase
              && vstack[..] == CopyDown(old(vstack[..]), f.vspBase, src, f.resultCount)
      ensures CanReturn(old(In(s))) ==> In(s) == Machine.DoReturn(old(In(s)))
    {
      hide CopyDown, Machine.DoReturn, CanReturn;
      var f := frames[|frames| - 1];
      var src := if vsp >= f.resultCount then vsp - f.resultCount else 0;
      ghost var was, control, depth := vstack[..], ctrl[..], ctrlDepth;
      CopyLoop(f.vspBase, src, f.resultCount);
      vsp := f.vspBase + f.resultCount;
      ctrlDepth := f.ctrlBase;
      frames := frames[..|frames| - 1];
      assert ctrl[..] == control;
      ReturnedState(old(In(s)), was, old(vsp), vstack[..], control, depth);
    }
  }

  /** The specified return, read off the copied array. */
  lemma ReturnedState(s: State, v: seq<Word>, vsp: nat, w: seq<Word>, control: seq<CtrlFrame>, depth: nat)
    requires s.frames != [] && vsp <= |v| && s.stack == v[..vsp] && depth <= |control| && s.ctrl == control[..depth]
    requires Top(s).vspBase + Top(s).resultCount <= |v|
    requires w == CopyDown(v, Top(s).vspBase, if vsp >= Top(s).resultCount then vsp - Top(s).resultCount else 0,
                           Top(s).resultCount)
    ensures CanReturn(s) ==>
              var f := Top(s);
              && f.ctrlBase <= |control|
              && Machine.DoReturn(s) == s.(stack := w[..f.vspBase + f.resultCount], ctrl := control[..f.ctrlBase],
                                           frames := s.frames[..|s.frames| - 1])
  {
    hide CopyDown;
    if CanReturn(s) {
      ReturnedStack(v, vsp, Top(s).vspBase, Top(s).resultCount);
      assert control[..depth][..Top(s).ctrlBase] == control[..Top(s).ctrlBase];
    }
  }

  /** With enough values the copied stack is prefix and results. */
  lemma ReturnedStack(v: seq<Word>, vsp: nat, base: nat, n: nat)
    requires base + n <= vsp <= |v|
    ensures CopyDown(v, base, vsp - n, n)[..base + n] == v[..vsp][..base] + v[..vsp][vsp - n..]
  {
    var w := CopyDown(v, base, vsp - n, n);
    var r := v[..vsp][..base] + v[..vsp][vsp - n..];
    forall i | 0 <= i < base + n ensures w[i] == r[i] {
      if i < base {
        CopyFrame(v, base, vsp - n, n, i);
      } else {
        CopyExact(v, base, vsp - n, n, i - base);
      }
    }
  }
}
