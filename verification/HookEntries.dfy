/** What the list of a hooked function's handles stands for: hooks and instrumentations, oldest
    first. `0` is the null pointer. */
module HookEntries {

  type Func = nat
  const NULL: Func := 0

  datatype Entry = Entry(hook: Func, post: bool)

  /** The last hook of `es`, or `base` if there is none. */
  function Nearest(es: seq<Entry>, base: Func): Func {
    if es == [] then base
    else if es[|es| - 1].hook != NULL then es[|es| - 1].hook
    else Nearest(es[..|es| - 1], base)
  }

  function Posts(es: seq<Entry>): nat {
    if es == [] then 0 else Posts(es[..|es| - 1]) + if es[|es| - 1].post then 1 else 0
  }

  /** The hook functions, oldest first. */
  function Hooks(es: seq<Entry>): seq<Func> {
    if es == [] then []
    else Hooks(es[..|es| - 1]) + if es[|es| - 1].hook != NULL then [es[|es| - 1].hook] else []
  }

  predicate NoHook(es: seq<Entry>) {
    forall i :: 0 <= i < |es| ==> es[i].hook == NULL
  }

  predicate AllHooks(es: seq<Entry>) {
    forall i :: 0 <= i < |es| ==> es[i].hook != NULL
  }

  /** No two live hooks share a function, none is the relocated code, and no handle is both a
      hook and an instrumentation. */
  predicate Proper(es: seq<Entry>, relocated: Func) {
    && relocated != NULL
    && (forall i, j :: 0 <= i < j < |es| && es[i].hook != NULL ==> es[i].hook != es[j].hook)
    && (forall i :: 0 <= i < |es| ==> es[i].hook != relocated && !(es[i].hook != NULL && es[i].post))
  }

  function Removed<T>(s: seq<T>, k: nat): seq<T>
    requires k < |s|
  {
    s[..k] + s[k + 1..]
  }

  function Reversed(s: seq<Func>): seq<Func> {
    if s == [] then [] else [s[|s| - 1]] + Reversed(s[..|s| - 1])
  }

  /** The hooks newest first, then the relocated code. */
  function Path(es: seq<Entry>, relocated: Func): seq<Func> {
    if es == [] then [relocated]
    else if es[|es| - 1].hook != NULL then [es[|es| - 1].hook] + Path(es[..|es| - 1], relocated)
    else Path(es[..|es| - 1], relocated)
  }

  lemma {:induction false} PathIsReversed(es: seq<Entry>, relocated: Func)
    ensures Path(es, relocated) == Reversed(Hooks(es)) + [relocated]
    decreases |es|
  {
    hide Reversed;
    if es == [] {
      assert Reversed([]) == [] by { ReversedSnoc([], 0); }
    } else {
      var front, h := es[..|es| - 1], es[|es| - 1].hook;
      PathIsReversed(front, relocated);
      if h != NULL {
        ReversedSnoc(Hooks(front), h);
        assert [h] + (Reversed(Hooks(front)) + [relocated]) == [h] + Reversed(Hooks(front)) + [relocated];
      } else {
        assert Hooks(front) + [] == Hooks(front);
      }
    }
  }

  lemma ReversedSnoc(s: seq<Func>, f: Func)
    ensures Reversed(s + [f]) == [f] + Reversed(s) && Reversed([]) == []
  {
    assert (s + [f])[..|s|] == s;
  }

  lemma {:induction false} PathStarts(es: seq<Entry>, relocated: Func)
    ensures Path(es, relocated) != [] && Path(es, relocated)[0] == Nearest(es, relocated)
    ensures Path(es, relocated)[|Path(es, relocated)| - 1] == relocated
    decreases |es|
  {
    if es != [] {
      PathStarts(es[..|es| - 1], relocated);
    }
  }

  lemma PathSnoc(es: seq<Entry>, n: nat, relocated: Func)
    requires n <= |es|
    ensures n == 0 ==> Path(es[..n], relocated) == [relocated]
    ensures n > 0 ==>
              Path(es[..n], relocated)
              == (if es[n - 1].hook != NULL then [es[n - 1].hook] else []) + Path(es[..n - 1], relocated)
  {
    if n > 0 {
      assert es[..n][..n - 1] == es[..n - 1];
      assert [] + Path(es[..n - 1], relocated) == Path(es[..n - 1], relocated);
    }
  }

  lemma {:induction false} NearestConcat(a: seq<Entry>, b: seq<Entry>, base: Func)
    ensures Nearest(a + b, base) == Nearest(b, Nearest(a, base))
    decreases |b|
  {
    if b == [] {
      assert a + b == a;
    } else {
      assert (a + b)[..|a + b| - 1] == a + b[..|b| - 1];
      NearestConcat(a, b[..|b| - 1], base);
    }
  }

  lemma {:induction false} PostsConcat(a: seq<Entry>, b: seq<Entry>)
    ensures Posts(a + b) == Posts(a) + Posts(b)
    decreases |b|
  {
    if b == [] {
      assert a + b == a;
    } else {
      assert (a + b)[..|a + b| - 1] == a + b[..|b| - 1];
      PostsConcat(a, b[..|b| - 1]);
    }
  }

  /** No hook from index `lo` up to `hi`. */
  predicate NoHookIn(es: seq<Entry>, lo: int, hi: int) {
    forall i :: 0 <= lo <= i < hi && i < |es| ==> es[i].hook == NULL
  }

  lemma SliceHasNoHook(es: seq<Entry>, lo: nat, hi: nat)
    requires lo <= hi <= |es|
    ensures NoHook(es[lo..hi]) <==> NoHookIn(es, lo, hi)
  {
    if NoHook(es[lo..hi]) {
      forall i | lo <= i < hi ensures es[i].hook == NULL {
        assert es[lo..hi][i - lo] == es[i];
      }
    }
  }

  lemma NoHookInSnoc(es: seq<Entry>, lo: int, j: nat)
    requires NoHookIn(es, lo, j) && j < |es| && es[j].hook == NULL
    ensures NoHookIn(es, lo, j + 1)
  {
  }

  lemma NoHookInNothing(es: seq<Entry>, lo: int)
    ensures NoHookIn(es, lo, lo)
  {
  }

  /** Where a walk from `lo` has been that ended at `j`, behind the first hook if it hit one. */
  lemma UntilHook(es: seq<Entry>, lo: nat, j: nat, hit: bool, i: nat)
    requires lo <= j <= |es| && lo <= i < |es| && NoHookIn(es, lo, if hit then j - 1 else j)
    requires if hit then lo < j && es[j - 1].hook != NULL else j == |es|
    ensures NoHookIn(es, lo, i) <==> i < j
  {
  }

  lemma {:induction false} NearestOfNone(es: seq<Entry>, base: Func)
    requires NoHook(es)
    ensures Nearest(es, base) == base
    decreases |es|
  {
    if es != [] {
      NearestOfNone(es[..|es| - 1], base);
    }
  }

  /** Behind a hook the base does not matter. */
  lemma {:induction false} NearestIgnoresBase(es: seq<Entry>, x: Func, y: Func)
    requires !NoHook(es)
    ensures Nearest(es, x) == Nearest(es, y)
    decreases |es|
  {
    if es[|es| - 1].hook == NULL {
      NearestIgnoresBase(es[..|es| - 1], x, y);
    }
  }

  lemma {:induction false} NearestIsAHook(es: seq<Entry>, base: Func)
    ensures Nearest(es, base) == base || exists i :: 0 <= i < |es| && es[i].hook == Nearest(es, base) && es[i].hook != NULL
    decreases |es|
  {
    if es != [] {
      NearestIsAHook(es[..|es| - 1], base);
    }
  }

  lemma NearestOne(e: Entry, base: Func)
    ensures Nearest([e], base) == if e.hook != NULL then e.hook else base
  {
  }

  /** The backup a handle behind the removed one must have. */
  lemma NearestAfterRemoval(es: seq<Entry>, k: nat, i: nat, base: Func)
    requires k < i <= |es|
    ensures Nearest(Removed(es, k)[..i - 1], base) == Nearest(es[k + 1..i], Nearest(es[..k], base))
    ensures Nearest(es[..i], base) == Nearest(es[k + 1..i], Nearest(es[..k + 1], base))
  {
    assert Removed(es, k)[..i - 1] == es[..k] + es[k + 1..i];
    NearestConcat(es[..k], es[k + 1..i], base);
    assert es[..i] == es[..k + 1] + es[k + 1..i];
    NearestConcat(es[..k + 1], es[k + 1..i], base);
  }

  /** The backup rule of `UpdateBackup`'s callers gives every handle behind the removed one the
      backup it must have. */
  lemma BackupAfterRemoval(es: seq<Entry>, k: nat, i: nat, base: Func)
    requires k < |es| && i < |es| - 1
    ensures i < k ==> Removed(es, k)[..i] == es[..i]
    ensures i >= k && NoHookIn(es, k + 1, i + 1) ==> Nearest(Removed(es, k)[..i], base) == Nearest(es[..k], base)
    ensures i >= k && !NoHookIn(es, k + 1, i + 1) ==> Nearest(Removed(es, k)[..i], base) == Nearest(es[..i + 1], base)
  {
    hide Nearest, NoHook, NoHookIn;
    if i >= k {
      SliceHasNoHook(es, k + 1, i + 1);
      NearestAfterRemoval(es, k, i + 1, base);
      if NoHook(es[k + 1..i + 1]) {
        NearestOfNone(es[k + 1..i + 1], Nearest(es[..k], base));
      } else {
        NearestIgnoresBase(es[k + 1..i + 1], Nearest(es[..k], base), Nearest(es[..k + 1], base));
      }
    }
  }

  /** Searching with null as base and falling back to the relocated code. */
  lemma {:induction false} NearestOrBase(es: seq<Entry>, base: Func)
    ensures Nearest(es, base) == if Nearest(es, NULL) != NULL then Nearest(es, NULL) else base
    decreases |es|
  {
    if es != [] {
      NearestOrBase(es[..|es| - 1], base);
    }
  }

  lemma {:induction false} NearestOfHooks(es: seq<Entry>, base: Func)
    requires es != [] && AllHooks(es)
    ensures Nearest(es, base) == es[|es| - 1].hook
  {
  }

  lemma ProperRemoved(es: seq<Entry>, k: nat, relocated: Func)
    requires Proper(es, relocated) && k < |es|
    ensures Proper(Removed(es, k), relocated)
  {
    var rest := Removed(es, k);
    forall i | 0 <= i < |rest| ensures rest[i] == es[if i < k then i else i + 1] {
    }
  }

  lemma PostsRemoved(es: seq<Entry>, k: nat)
    requires k < |es|
    ensures Posts(es) == Posts(Removed(es, k)) + if es[k].post then 1 else 0
  {
    hide Posts;
    var e := es[k];
    assert es == es[..k] + ([e] + es[k + 1..]);
    PostsConcat(es[..k], [e] + es[k + 1..]);
    PostsConcat([e], es[k + 1..]);
    PostsConcat(es[..k], es[k + 1..]);
    PrefixFacts([], e, 0);
    assert [] + [e] == [e];
  }

  /** The trampoline's two words for a list that is not empty. Until an instrumentation was served the
      trampoline jumps straight to the newest hook; from then on it goes through the register
      handlers and calls the newest hook or the relocated code. */
  predicate Targets(es: seq<Entry>, instrumented: bool, relocated: Func, hook: Func, backup: Func) {
    if instrumented then hook == NULL && backup == Nearest(es, relocated)
    else AllHooks(es) && hook == Nearest(es, relocated) && hook != NULL && backup == NULL
  }

  /** The trampoline's two words after a removal, as `UnhookExt` computes them. */
  lemma TargetAfterRemoval(es: seq<Entry>, k: nat, instrumented: bool, relocated: Func, tdHook: Func, tdBackup: Func)
    requires Proper(es, relocated) && k < |es| && |es| > 1 && Targets(es, instrumented, relocated, tdHook, tdBackup)
    ensures var e, before := es[k], Nearest(es[..k], NULL);
            var hook' := if e.hook != NULL && tdHook == e.hook then before else tdHook;
            var backup' := if e.hook != NULL && tdBackup == e.hook then Nearest(es[..k], relocated) else tdBackup;
            Targets(Removed(es, k), instrumented, relocated, hook', backup')
  {
    hide Nearest;
    var rest := Removed(es, k);
    if instrumented {
      BackupTarget(es, k, relocated);
    } else {
      NearestOfHooks(es, relocated);
      NearestOfHooks(rest, relocated);
      if k == |es| - 1 {
        NearestOfHooks(es[..k], NULL);
      }
    }
  }

  lemma BackupTarget(es: seq<Entry>, k: nat, relocated: Func)
    requires Proper(es, relocated) && k < |es|
    ensures var e, target := es[k], Nearest(es, relocated);
            Nearest(Removed(es, k), relocated)
            == if e.hook != NULL && target == e.hook then Nearest(es[..k], relocated) else target
  {
    hide Nearest, NoHook;
    var e, tail := es[k], es[k + 1..];
    assert Removed(es, k)[..|es| - 1] == Removed(es, k) && es[..|es|] == es;
    NearestAfterRemoval(es, k, |es|, relocated);
    NearestSnoc(es, k, relocated);
    if NoHook(tail) {
      NearestOfNone(tail, Nearest(es[..k], relocated));
      NearestOfNone(tail, Nearest(es[..k + 1], relocated));
      NotTwice(es[..k], e, relocated, es, k);
    } else {
      NearestIgnoresBase(tail, Nearest(es[..k], relocated), Nearest(es[..k + 1], relocated));
      OtherHook(es, k, relocated);
    }
  }

  lemma NotTwice(front: seq<Entry>, e: Entry, relocated: Func, es: seq<Entry>, k: nat)
    requires Proper(es, relocated) && k < |es| && front == es[..k] && e == es[k]
    ensures e.hook != NULL ==> Nearest(front, relocated) != e.hook
  {
    NearestIsAHook(front, relocated);
  }

  lemma OtherHook(es: seq<Entry>, k: nat, relocated: Func)
    requires Proper(es, relocated) && k < |es| && !NoHook(es[k + 1..])
    ensures es[k].hook != NULL ==> Nearest(es[k + 1..], Nearest(es[..k], relocated)) != es[k].hook
  {
    var tail := es[k + 1..];
    NearestIgnoresBase(tail, Nearest(es[..k], relocated), relocated);
    NearestIsAHook(tail, relocated);
  }

  lemma LastIsNoBoth(es: seq<Entry>, e: Entry, relocated: Func)
    requires Proper(es + [e], relocated)
    ensures e.hook != NULL ==> !e.post
  {
    assert (es + [e])[|es|] == e;
  }

  lemma NearestSnoc(es: seq<Entry>, i: nat, base: Func)
    requires i < |es|
    ensures Nearest(es[..i + 1], base) == if es[i].hook != NULL then es[i].hook else Nearest(es[..i], base)
  {
    assert es[..i + 1][..i] == es[..i];
  }

  /** One more entry at the end. */
  lemma PrefixFacts(es: seq<Entry>, e: Entry, base: Func)
    ensures forall i :: 0 <= i <= |es| ==> (es + [e])[..i] == es[..i]
    ensures es[..|es|] == es
    ensures Nearest(es + [e], base) == if e.hook != NULL then e.hook else Nearest(es, base)
    ensures Posts(es + [e]) == Posts(es) + if e.post then 1 else 0
    ensures Nearest([], base) == base && Posts([]) == 0
  {
    assert (es + [e])[..|es|] == es;
  }

  lemma ProperThree()
    ensures Proper([Entry(2, false)], 1) && Proper([Entry(2, false), Entry(3, false)], 1)
    ensures Proper([Entry(2, false), Entry(3, false), Entry(4, false)], 1)
  {
  }
}
