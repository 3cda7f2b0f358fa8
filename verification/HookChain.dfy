/** The hooks of one function: a doubly linked list of handles, the data its trampoline reads, and
    the counts. */
module HookChain {
  import opened HookEntries

  /** A user's variable that receives the backup. */
  class Cell {
    var value: Func

    constructor (v: Func)
      ensures value == v
    {
      value := v;
    }
  }

  ghost function Single(u: Cell?): set<Cell> {
    if u == null then {} else {u}
  }

  class HookHandle {
    var info: HookInfo?
    var previous: HookHandle?
    var next: HookHandle?
    const hook: Func
    const post: bool
    var backup: Func
    var user: Cell?
    // the variable the user gave, whether or not it is still followed
    ghost const given: Cell?

    constructor (i: HookInfo, h: Func, p: bool, u: Cell?)
      ensures info == i && previous == null && next == null && hook == h && post == p && user == given == u
    {
      info, previous, next, hook, post, backup, user := i, null, null, h, p, NULL, u;
      given := u;
    }

    ghost function Front(): set<HookHandle>
      reads `previous
    {
      if previous == null then {} else {previous}
    }

    /** The user's variable follows the backup until the user has changed it. */
    method UpdateBackup(newBackup: Func)
      modifies this`backup, this`user, user
      ensures backup == newBackup
      ensures user == if old(user) != null && old(user.value) == old(backup) then old(user) else null
      ensures old(user) != null ==> old(user).value == if user != null then newBackup else old(user.value)
    {
      if user != null {
        if user.value == backup {
          user.value := newBackup;
        } else {
          user := null;
        }
      }
      backup := newBackup;
    }

    /** The nearest earlier hook, or null: the walk along `previous_`. */
    method PreviousHook(ghost k: nat) returns (found: Func)
      requires info != null && info.Chained() && k < |info.chain| && info.chain[k] == this
      requires info.BackwardBut(-1)
      ensures found == Nearest(info.entries[..k], NULL)
    {
      hide Nearest;
      ghost var es := info.entries;
      assert info.BackwardAt(k);
      found := NULL;
      var handle := previous;
      ghost var j := k;
      while handle != null
        invariant 0 <= j <= k && handle == (if j > 0 then info.chain[j - 1] else null)
        invariant found == NULL && Nearest(es[..k], NULL) == Nearest(es[..j], NULL)
        decreases j
      {
        assert info.BackwardAt(j - 1) && info.ForwardAt(j - 1);
        NearestSnoc(es, j - 1, NULL);
        if handle.hook != NULL {
          found := handle.hook;
          return;
        }
        handle := handle.previous;
        j := j - 1;
      }
      PrefixFacts([], Entry(NULL, false), NULL);
      assert es[..0] == [];
    }

    /** Handles behind this one, up to the next hook, get the new backup. */
    method UpdateFollowing(newBackup: Func, ghost k: nat)
      requires info != null && info.Chained() && k < |info.chain| && info.chain[k] == this
      requires info.AllBackups()
      requires newBackup == Nearest(info.entries[..k], info.relocated) && info.CellsKnown()
      modifies info.chain`backup, info.chain`user, info.users
      ensures info.CellsKnown() && info.AllUpdated(k)
      ensures old(info.AllFollowed(info.chain)) ==> info.AllFollowed(info.chain)
    {
      hide Nearest, NoHookIn, HookInfo.Chained, HookInfo.CellsKnown, HookInfo.UpdatedTo, HookInfo.AllBackups;
      hide HookInfo.AllUpdated, HookInfo.AllFollowed;
      ghost var c, es, hit := info.chain, info.entries, false;
      info.Forward(k);
      NoHookInNothing(es, k + 1);
      info.NoneUpdated(k, newBackup);
      var handle := next;
      ghost var j := k + 1;
      while handle != null
        invariant k < j <= |c| && handle == (if j < |c| then c[j] else null) && NoHookIn(es, k + 1, j) && !hit
        invariant info.UpdatedTo(k, j, newBackup) && info.CellsKnown()
        invariant old(info.AllFollowed(info.chain)) ==> info.AllFollowed(info.chain)
        decreases |c| - j
      {
        info.Forward(j);
        info.UpdateHandle(handle, newBackup, k, j);
        j := j + 1;
        if handle.hook != NULL {
          hit := true;
          break;
        }
        NoHookInSnoc(es, k + 1, j - 1);
        handle := handle.next;
      }
      info.FollowingUpdated(k, j, hit, newBackup);
    }

    /** Looks for the nearest earlier hook and hands it on as backup. */
    method PassOn(ghost k: nat) returns (previousHook: Func, newBackup: Func)
      requires info != null && info.Chained() && k < |info.chain| && info.chain[k] == this
      requires info.BackwardBut(-1) && info.AllBackups() && info.CellsKnown()
      modifies info.chain`backup, info.chain`user, info.users
      ensures info.CellsKnown() && info.AllUpdated(k)
      ensures old(info.AllFollowed(info.chain)) ==> info.AllFollowed(info.chain)
      ensures previousHook == Nearest(info.entries[..k], NULL)
      ensures newBackup == Nearest(info.entries[..k], info.relocated)
    {
      hide Nearest, HookInfo.Chained, HookInfo.BackwardBut, HookInfo.AllBackups, HookInfo.CellsKnown, HookInfo.AllUpdated;
      hide HookInfo.AllFollowed;
      info.SameLength();
      NearestOrBase(info.entries[..k], info.relocated);
      previousHook := PreviousHook(k);
      newBackup := if previousHook != NULL then previousHook else info.relocated;
      UpdateFollowing(newBackup, k);
    }

    /** Counts, root, backups and trampoline data without this handle. */
    method Detach(ghost k: nat)
      requires info != null && info.Valid() && k < |info.chain| && info.chain[k] == this && |info.chain| > 1
      modifies info`handleCount, info`postHandlers, info`root, info`tdRoot, info`tdHook, info`tdBackup
      modifies info.chain`backup, info.chain`user, info.users
      ensures info.Departing(this, k) && (old(info.AllFollowed(info.chain)) ==> info.AllFollowed(info.chain))
    {
      hide Nearest, Posts, Proper, HookInfo.Chained, HookInfo.Linked, HookInfo.BackwardBut, HookInfo.AllBackups;
      hide HookInfo.ForwardAt, HookInfo.CellsKnown, HookInfo.TargetOk, HookInfo.AllUpdated, Front, Removed, AllHooks;
      hide HookInfo.Valid, HookInfo.CountsOk, HookInfo.AllFollowed, HookInfo.BackwardAt;
      info.Parts(k);
      info.Discount(this, k);
      var previousHook, newBackup := PassOn(k);
      info.Untarget(this, k, previousHook, newBackup);
    }

    /** The part of `UnhookExt` for a list of several handles. */
    method TakeOut(ghost k: nat)
      requires info != null && info.Valid() && k < |info.chain| && info.chain[k] == this && |info.chain| > 1
      modifies this`info, info, info.chain, info.users
      ensures var i := old(info);
              && info == null && i.ForwardValid() && i.installed == old(i.installed) && i.cells == old(i.cells)
              && i.chain == old(i.chain)[..k] + old(i.chain)[k + 1..] && i.entries == Removed(old(i.entries), k)
              && this !in i.chain && i.BackwardBut(k)
              && (k < |i.chain| ==> i.chain[k].previous == this)
              && i.written == old(i.written) && i.instrumented == old(i.instrumented)
              && i.users <= old(i.users) && (old(i.Followed()) ==> i.Followed())
    {
      hide Nearest, Posts, Proper, HookInfo.BackwardBut, HookInfo.Departing, Front, Removed;
      hide HookInfo.Valid, HookInfo.ForwardValid, HookInfo.AllFollowed, HookInfo.UsersLive;
      var i := info;
      i.FrontInChain(k);
      Detach(k);
      i.Leave(this, k);
    }

    /** `UnhookExt` as it is. The last handle ends the hook. Otherwise, if it takes out the newest
        handle, all is well; else all but one thing is: the handle behind it keeps a back link to
        this one, which is gone. */
    method UnhookExt(ghost k: nat)
      requires info != null && info.Valid() && k < |info.chain| && info.chain[k] == this
      modifies this`info, info, info.chain, info.users
      ensures info == null
      ensures var i := old(info); |old(i.chain)| == 1 ==> !i.installed && i.chain == []
      ensures var i := old(info);
              |old(i.chain)| > 1 ==>
                && i.ForwardValid() && i.installed == old(i.installed) && i.cells == old(i.cells)
                && i.chain == old(i.chain)[..k] + old(i.chain)[k + 1..] && i.entries == Removed(old(i.entries), k)
                && (i.Valid() <==> k == |i.chain|)
                && i.BackwardBut(k)
                && (k < |i.chain| ==> i.chain[k].previous == this && this !in i.chain)
                && i.written == old(i.written) && i.instrumented == old(i.instrumented)
                && i.users <= old(i.users) && (old(i.Followed()) ==> i.Followed())
    {
      hide Nearest, Posts, Proper, HookInfo.ForwardAt, HookInfo.AllBackups, HookInfo.CellsKnown, HookInfo.TargetOk, Removed;
      hide HookInfo.BackwardBut, HookInfo.Followed;
      var i := info;
      if i.handleCount == 1 {
        i.Unhook();
        i.chain, i.entries, i.users := [], [], {};
        info := null;
      } else {
        TakeOut(k);
        if k < |i.chain| {
          i.BackLinkBroken(k, this);
        } else {
          i.BackLinksWhole(k);
        }
      }
    }

    /** `UnhookExt` with the missing assignment, `next_->previous_ = previous_`: handles may be
        taken out in any order. */
    method UnhookRepaired(ghost k: nat)
      requires info != null && info.Valid() && k < |info.chain| && info.chain[k] == this
      modifies this`info, info, info.chain, info.users
      ensures info == null
      ensures var i := old(info); |old(i.chain)| == 1 ==> !i.installed && i.chain == []
      ensures var i := old(info);
              |old(i.chain)| > 1 ==>
                && i.Valid() && i.installed == old(i.installed) && i.cells == old(i.cells)
                && i.chain == old(i.chain)[..k] + old(i.chain)[k + 1..] && i.entries == Removed(old(i.entries), k)
                && i.written == old(i.written) && i.instrumented == old(i.instrumented)
                && i.users <= old(i.users) && (old(i.Followed()) ==> i.Followed())
    {
      hide Nearest, Posts, Proper, HookInfo.AllBackups, HookInfo.CellsKnown, HookInfo.TargetOk, Removed;
      hide HookInfo.CountsOk, HookInfo.Followed;
      var i, before, behind := info, previous, next;
      i.Neighbours(k);
      var several := i.handleCount > 1;
      UnhookExt(k);
      if several && behind != null {
        label Unlinked:
        i.HandlesDistinct();
        behind.previous := before;
        forall j | 0 <= j < |i.chain| ensures i.BackwardAt(j) {
          assert old@Unlinked(i.BackwardBut(k));
          assert j != k ==> old@Unlinked(i.BackwardAt(j));
        }
      }
    }
  }

  class HookInfo {
    const relocated: Func
    var root: HookHandle?
    var handleCount: nat
    var installed: bool
    // TrampolineData
    var tdRoot: HookHandle?
    var tdHook: Func
    var tdBackup: Func
    var postHandlers: nat
    var enabled: bool
    // the list
    ghost var chain: seq<HookHandle>
    ghost var entries: seq<Entry>
    ghost var instrumented: bool      // an instrumentation was served
    // users' variables: all that were ever given, those a live handle follows, and what users wrote themselves
    ghost var cells: set<Cell>
    ghost var users: set<Cell>
    ghost var written: map<Cell, Func>

    /** Handle `i` is what entry `i` says and hangs together with its neighbour in front. */
    ghost predicate ForwardAt(i: nat)
      requires i < |chain|
      reads `chain, `entries, chain`info, chain`next
    {
      && chain[i].info == this
      && chain[i].next == (if i + 1 < |chain| then chain[i + 1] else null)
      && i < |entries| && entries[i] == Entry(chain[i].hook, chain[i].post)
    }

    ghost predicate BackwardAt(i: nat)
      requires i < |chain|
      reads `chain, chain`previous
    {
      chain[i].previous == if i > 0 then chain[i - 1] else null
    }

    ghost predicate BackupAt(i: nat)
      requires i < |chain|
      reads `chain, `entries, chain`backup
    {
      i <= |entries| && chain[i].backup == Nearest(entries[..i], relocated)
    }

    /** All back links are right, except perhaps that of handle `k`. */
    ghost predicate BackwardBut(k: int)
      reads `chain, chain`previous
    {
      forall i :: 0 <= i < |chain| && i != k ==> BackwardAt(i)
    }

    ghost predicate AllBackups()
      reads `chain, `entries, chain`backup
    {
      forall i :: 0 <= i < |chain| ==> BackupAt(i)
    }

    ghost predicate AllUpdated(k: nat)
      reads `chain, `entries, chain`backup
    {
      forall i :: 0 <= i < |chain| ==> UpdatedAt(i, k)
    }

    ghost predicate Distinct()
      reads `chain
    {
      forall i, j :: 0 <= i < j < |chain| ==> chain[i] != chain[j]
    }

    /** What the trampoline jumps to agrees with the list. */
    ghost predicate TargetOk()
      reads `entries, `instrumented, `tdHook, `tdBackup, `enabled
    {
      if entries == [] then tdHook == NULL && tdBackup == NULL && !instrumented
      else Targets(entries, instrumented, relocated, tdHook, tdBackup) && enabled
    }

    ghost predicate CountsOk()
      reads `chain, `entries, `handleCount, `postHandlers
    {
      handleCount == |chain| == |entries| && postHandlers == Posts(entries) && handleCount <= 0xffff
    }

    ghost predicate Chained()
      reads `chain, `entries, chain`info, chain`next
    {
      |chain| == |entries| && Distinct() && forall i :: 0 <= i < |chain| ==> ForwardAt(i)
    }

    /** The list as its `next` pointers give it. */
    ghost predicate Linked()
      reads `chain, `entries, `root, `tdRoot, chain`info, chain`next
    {
      Chained() && root == tdRoot == (if chain == [] then null else chain[0])
    }

    /** The variables that handles follow are known. */
    ghost predicate CellsKnown()
      reads `chain, `users, chain`user
    {
      forall i :: 0 <= i < |chain| ==> chain[i].user == null || chain[i].user in users
    }

    // ---- The users' variables ----

    /** The variable given with handle `h` holds the handle's backup and goes on following it, or
        holds what the user last wrote there. */
    ghost predicate FollowedBy(h: HookHandle)
      reads `cells, `written, h`backup, h`user, cells
    {
      if h.given == null then h.user == null
      else
        && h.given in cells
        && (h.user == h.given || h.user == null)
        && (|| (h.user == h.given && h.given.value == h.backup)
            || (h.given in written && h.given.value == written[h.given]))
    }

    /** All handles of `c` do so, and no two of them were given the same variable. */
    ghost predicate AllFollowed(c: seq<HookHandle>)
      reads `cells, `written, c`backup, c`user, cells
    {
      && (forall i, j :: 0 <= i < j < |c| && c[i].given != null ==> c[i].given != c[j].given)
      && (forall i :: 0 <= i < |c| ==> FollowedBy(c[i]))
    }

    ghost predicate Follows(u: Cell, c: seq<HookHandle>)
      reads c`user
    {
      exists i :: 0 <= i < |c| && c[i].user == u
    }

    /** The variables that a removal may write are those that a handle of `c` follows. */
    ghost predicate UsersLive(c: seq<HookHandle>)
      reads `users, c`user
    {
      forall u :: u in users ==> Follows(u, c)
    }

    ghost predicate FollowedIn(c: seq<HookHandle>)
      reads `cells, `users, `written, c`backup, c`user, cells
    {
      AllFollowed(c) && UsersLive(c)
    }

    /** Every user's variable is right, and only those that live handles follow may be written. */
    ghost predicate Followed()
      reads `chain, `cells, `users, `written, chain`backup, chain`user, cells
    {
      FollowedIn(chain)
    }

    /** No live handle was given `u`. */
    ghost predicate Unused(u: Cell?)
      reads `chain
    {
      u == null || forall i :: 0 <= i < |chain| ==> chain[i].given != u
    }

    /** A variable the user took over is let go at the next change of the backup; from then on it is
        not among those a removal may write. */
    lemma LetGoIsApart(i: nat)
      requires Followed() && i < |chain| && chain[i].given != null && chain[i].user == null
      ensures chain[i].given !in users && chain[i].given in written && chain[i].given.value == written[chain[i].given]
    {
      assert FollowedBy(chain[i]);
      forall j | 0 <= j < |chain| ensures chain[j].user != chain[i].given {
        assert FollowedBy(chain[j]);
      }
      assert !Follows(chain[i].given, chain);
    }

    /** Everything but the back links. */
    ghost predicate ForwardValid()
      reads this, chain`info, chain`next, chain`backup, chain`user
    {
      && Linked() && CellsKnown() && CountsOk() && Proper(entries, relocated) && TargetOk()
      && AllBackups()
    }

    ghost predicate Valid()
      reads this, chain
    {
      ForwardValid() && BackwardBut(-1)
    }

    /** `Create`; the trampoline data is zeroed. */
    constructor (r: Func)
      requires r != NULL
      ensures Valid() && chain == [] && entries == [] && cells == {} && relocated == r && installed
      ensures Followed() && users == {} && written == map[] && !instrumented
    {
      relocated := r;
      root, tdRoot := null, null;
      handleCount, postHandlers, tdHook, tdBackup := 0, 0, NULL, NULL;
      installed, enabled := true, false;
      chain, entries, cells, users, written := [], [], {}, {}, map[];
      instrumented := false;
    }

    /** `Unhook`: the function is restored and the trampoline and the block are freed. */
    method Unhook()
      modifies `installed
      ensures !installed
    {
      installed := false;
    }

    /** Walks to the last handle, looking for the last hook on the way. */
    method FindLast() returns (last: HookHandle, backup: Func)
      requires Linked() && chain != []
      ensures last == chain[|chain| - 1] && backup == Nearest(entries, relocated)
    {
      hide Proper, Posts;
      backup := relocated;
      last := root;
      ghost var i := 0;
      while true
        invariant 0 <= i < |chain| && last == chain[i] && backup == Nearest(entries[..i], relocated)
        decreases |chain| - i
      {
        assert ForwardAt(i);
        NearestSnoc(entries, i, relocated);
        if last.hook != NULL {
          backup := last.hook;
        }
        if last.next == null {
          assert entries[..i + 1] == entries;
          break;
        }
        last := last.next;
        i := i + 1;
      }
    }

    /** What the trampoline jumps to after one more entry. */
    method Retarget(hook: Func, post: bool, backup: Func, ghost es: seq<Entry>)
      requires entries == es && es != [] && TargetOk() && backup == Nearest(es, relocated) && (hook != NULL ==> !post)
      requires postHandlers == Posts(es)
      modifies `tdHook, `tdBackup, `postHandlers, `instrumented
      ensures Targets(es + [Entry(hook, post)], instrumented, relocated, tdHook, tdBackup)
      ensures instrumented == (old(instrumented) || hook == NULL) && enabled
      ensures postHandlers == Posts(es + [Entry(hook, post)])
    {
      hide Nearest, Posts;
      PrefixFacts(es, Entry(hook, post), relocated);
      instrumented := instrumented || hook == NULL;
      if hook != NULL {
        if tdHook != NULL {
          tdHook := hook;
        } else {
          tdBackup := hook;
        }
      } else {
        tdHook := NULL;
        tdBackup := backup;
        if post {
          postHandlers := postHandlers + 1;
        }
      }
    }

    /** A handle about to join receives its backup, and so does its variable, which comes under its
        care. */
    method Care(h: HookHandle, backup: Func)
      requires CellsKnown() && h !in chain
      modifies `cells, `users, `written, h.user, h`backup
      ensures cells == old(cells) + Single(h.user) && users == old(users) + Single(h.user)
      ensures written == old(written) - Single(h.user) && CellsKnown()
      ensures h.backup == backup && (h.user != null ==> h.user.value == backup)
      ensures old(Followed()) && Unused(h.user) && h.given == h.user ==>
                FollowedIn(chain + [h])
    {
      var u := h.user;
      h.backup := backup;
      if u != null {
        u.value := backup;
      }
      cells, users, written := cells + Single(u), users + Single(u), written - Single(u);
      if old(Followed()) && Unused(u) && h.given == u {
        ghost var c := chain + [h];
        forall i | 0 <= i < |c| ensures FollowedBy(c[i]) {
          assert i < |chain| ==> c[i] == chain[i] && old(FollowedBy(chain[i]));
        }
        forall x | x in users ensures Follows(x, c) {
          if x == u {
            assert c[|chain|].user == x;
          } else {
            ghost var i :| 0 <= i < |chain| && chain[i].user == x;
            assert c[i].user == x;
          }
        }
      }
    }

    /** The new handle behind the last one. */
    method Append(h: HookHandle, last: HookHandle)
      requires Linked() && chain != [] && last == chain[|chain| - 1] && h.backup == Nearest(entries, relocated)
      requires h !in chain && h.info == this && h.next == null
      requires CellsKnown() && BackwardBut(-1) && AllBackups() && (h.user == null || h.user in users)
      modifies `chain, `entries, last`next, h`previous
      ensures chain == old(chain) + [h] && entries == old(entries) + [Entry(h.hook, h.post)]
      ensures Linked() && CellsKnown() && BackwardBut(-1) && AllBackups()
    {
      hide Nearest;
      PrefixFacts(entries, Entry(h.hook, h.post), relocated);
      last.next := h;
      h.previous := last;
      chain := chain + [h];
      entries := entries + [Entry(h.hook, h.post)];
      forall i | 0 <= i < |chain| ensures ForwardAt(i) && BackwardAt(i) && BackupAt(i) {
        if i < |chain| - 1 {
          assert old(ForwardAt(i)) && old(BackwardAt(i)) && old(BackupAt(i));
        }
      }
    }

    method AppendFirst(h: HookHandle)
      requires chain == [] && entries == [] && h.info == this && h.next == null && h.previous == null
      requires h.backup == relocated && (h.user == null || h.user in users)
      modifies `chain, `entries, `root, `tdRoot
      ensures chain == [h] && entries == [Entry(h.hook, h.post)]
      ensures Linked() && CellsKnown() && BackwardBut(-1) && AllBackups()
    {
      root := h;
      tdRoot := h;
      chain := [h];
      entries := [Entry(h.hook, h.post)];
      assert ForwardAt(0) && BackwardAt(0) && BackupAt(0);
    }

    method TargetFirst(hook: Func, post: bool)
      requires tdHook == NULL && tdBackup == NULL && !instrumented && postHandlers == 0 && (hook != NULL ==> !post)
      modifies `tdHook, `tdBackup, `postHandlers, `enabled, `instrumented
      ensures Targets([Entry(hook, post)], instrumented, relocated, tdHook, tdBackup) && instrumented == (hook == NULL)
      ensures postHandlers == Posts([Entry(hook, post)]) && enabled
    {
      instrumented := hook == NULL;
      if hook != NULL {
        tdHook := hook;
      } else {
        tdBackup := relocated;
        if post {
          postHandlers := 1;
        }
      }
      enabled := true;
    }

    /** A further handle joins behind the last one. */
    method InsertLast(h: HookHandle, last: HookHandle, backup: Func)
      requires Linked() && CellsKnown() && TargetOk() && AllBackups() && BackwardBut(-1)
      requires handleCount == |chain| + 1 == |entries| + 1 <= 0xffff && postHandlers == Posts(entries)
      requires chain != [] && last == chain[|chain| - 1] && h.backup == backup == Nearest(entries, relocated)
      requires h !in chain && h.info == this && h.next == null && (h.user == null || h.user in users)
      requires Proper(entries + [Entry(h.hook, h.post)], relocated)
      modifies `chain, `entries, `instrumented, `tdHook, `tdBackup, `postHandlers, last`next, h`previous
      ensures Valid() && chain == old(chain) + [h] && entries == old(entries) + [Entry(h.hook, h.post)]
      ensures old(FollowedIn(chain + [h])) ==> Followed()
      ensures instrumented == (old(instrumented) || h.hook == NULL)
    {
      hide Nearest, Posts, Proper, Linked, BackwardBut, AllBackups, CellsKnown, FollowedIn, Valid, ForwardValid, TargetOk;
      hide AllHooks;
      ghost var es, e := entries, Entry(h.hook, h.post);
      PrefixFacts(es, e, relocated);
      LastIsNoBoth(es, e, relocated);
      Retarget(h.hook, h.post, backup, es);
      Append(h, last);
      Complete();
    }

    method InsertFirst(h: HookHandle)
      requires CellsKnown() && tdHook == NULL && tdBackup == NULL && !instrumented && postHandlers == 0 && handleCount == 1
      requires chain == [] && entries == [] && Proper([Entry(h.hook, h.post)], relocated) && h.backup == relocated
      requires h.info == this && h.next == null && h.previous == null && (h.user == null || h.user in users)
      modifies `chain, `entries, `instrumented, `root, `tdRoot, `tdHook, `tdBackup, `postHandlers, `enabled
      ensures Valid() && chain == old(chain) + [h] && entries == old(entries) + [Entry(h.hook, h.post)]
      ensures old(FollowedIn(chain + [h])) ==> Followed()
      ensures instrumented == (old(instrumented) || h.hook == NULL)
    {
      hide Nearest, Posts, Proper, Linked, BackwardBut, AllBackups, CellsKnown, FollowedIn, Valid, ForwardValid, TargetOk;
      hide AllHooks;
      assert chain + [h] == [h] && [] + [Entry(h.hook, h.post)] == [Entry(h.hook, h.post)];
      LastIsNoBoth([], Entry(h.hook, h.post), relocated);
      TargetFirst(h.hook, h.post);
      AppendFirst(h);
      Complete();
    }

    lemma NoneYet(e: Entry)
      requires TargetOk() && entries == [] && postHandlers == Posts(entries) && Proper(entries + [e], relocated)
      ensures tdHook == NULL && tdBackup == NULL && !instrumented && postHandlers == 0 && Proper([e], relocated)
    {
      assert [] + [e] == [e];
    }

    lemma Complete()
      requires Linked() && CellsKnown() && AllBackups() && Proper(entries, relocated) && BackwardBut(-1)
      requires handleCount == |chain| == |entries| && postHandlers == Posts(entries) && 0 < handleCount <= 0xffff
      requires Targets(entries, instrumented, relocated, tdHook, tdBackup) && enabled
      ensures Valid()
    {
      hide ForwardValid;
      Whole();
    }

    method JoinLast(h: HookHandle)
      requires Linked() && CellsKnown() && TargetOk() && AllBackups() && BackwardBut(-1)
      requires handleCount == |chain| + 1 == |entries| + 1 <= 0xffff && postHandlers == Posts(entries)
      requires chain != [] && Proper(entries + [Entry(h.hook, h.post)], relocated)
      requires h !in chain && h.info == this && h.next == null
      modifies `chain, `entries, `instrumented, `cells, `users, `written, `tdHook, `tdBackup, `postHandlers
      modifies chain`next, h`previous, h`backup, h.user
      ensures Valid() && chain == old(chain) + [h] && entries == old(entries) + [Entry(h.hook, h.post)]
      ensures h.user != null ==> h.user.value == Nearest(old(entries), relocated)
      ensures h.user == old(h.user) && cells == old(cells) + Single(h.user) && users == old(users) + Single(h.user)
      ensures written == old(written) - Single(h.user)
      ensures old(Followed()) && old(Unused(h.user)) && h.given == h.user ==> Followed()
      ensures instrumented == (old(instrumented) || h.hook == NULL)
    {
      hide Nearest, Posts, Proper, Linked, BackwardBut, AllBackups, CellsKnown, FollowedIn, Valid, TargetOk, Unused;
      var last, backup := FindLast();
      Care(h, backup);
      InsertLast(h, last, backup);
    }

    method JoinFirst(h: HookHandle)
      requires CellsKnown() && TargetOk() && handleCount == 1 && postHandlers == Posts(entries)
      requires chain == [] && entries == [] && Proper(entries + [Entry(h.hook, h.post)], relocated)
      requires h.info == this && h.next == null && h.previous == null
      modifies `chain, `entries, `instrumented, `cells, `users, `written
      modifies `root, `tdRoot, `tdHook, `tdBackup, `postHandlers, `enabled
      modifies h`backup, h.user
      ensures Valid() && chain == old(chain) + [h] && entries == old(entries) + [Entry(h.hook, h.post)]
      ensures h.user != null ==> h.user.value == Nearest(old(entries), relocated)
      ensures h.user == old(h.user) && cells == old(cells) + Single(h.user) && users == old(users) + Single(h.user)
      ensures written == old(written) - Single(h.user)
      ensures old(Followed()) && old(Unused(h.user)) && h.given == h.user ==> Followed()
      ensures instrumented == (old(instrumented) || h.hook == NULL)
    {
      hide Nearest, Posts, Proper, Linked, BackwardBut, AllBackups, CellsKnown, FollowedIn, Valid, TargetOk, Unused;
      NoneYet(Entry(h.hook, h.post));
      PrefixFacts([], Entry(h.hook, h.post), relocated);
      Care(h, relocated);
      InsertFirst(h);
    }

    /** The rest of `NewHookHandle`, once the handle exists. */
    method Insert(h: HookHandle)
      requires Valid() && |chain| < 0xffff && Proper(entries + [Entry(h.hook, h.post)], relocated)
      requires h !in chain && h.info == this && h.next == null && h.previous == null
      modifies this, chain`next, h`previous, h`backup, h.user
      ensures Valid() && chain == old(chain) + [h] && entries == old(entries) + [Entry(h.hook, h.post)]
      ensures h.user != null ==> h.user.value == Nearest(old(entries), relocated)
      ensures installed == old(installed) && h.user == old(h.user)
      ensures cells == old(cells) + Single(h.user) && users == old(users) + Single(h.user)
      ensures written == old(written) - Single(h.user)
      ensures old(Followed()) && old(Unused(h.user)) && h.given == h.user ==> Followed()
      ensures instrumented == (old(instrumented) || h.hook == NULL)
    {
      hide Nearest, Posts, Proper, Linked, BackwardBut, AllBackups, CellsKnown, FollowedIn, Unused, TargetOk;
      RootIsFirst();
      handleCount := handleCount + 1;
      if root != null {
        JoinLast(h);
      } else {
        JoinFirst(h);
      }
    }

    method NewHookHandle(hook: Func, post: bool, user: Cell?) returns (h: HookHandle)
      requires Valid() && |chain| < 0xffff && Proper(entries + [Entry(hook, post)], relocated)
      modifies this, chain`next, user
      ensures Valid() && fresh(h) && chain == old(chain) + [h] && entries == old(entries) + [Entry(hook, post)]
      ensures user != null ==> user.value == Nearest(old(entries), relocated)
      ensures installed == old(installed) && h.user == h.given == user
      ensures cells == old(cells) + Single(user) && users == old(users) + Single(user)
      ensures written == old(written) - Single(user)
      ensures old(Followed()) && old(Unused(user)) ==> Followed()
      ensures instrumented == (old(instrumented) || hook == NULL)
      ensures Targets(entries, instrumented, relocated, tdHook, tdBackup) && enabled
    {
      hide Nearest, Posts, Proper, ForwardValid, Followed, Unused;
      h := new HookHandle(this, hook, post, user);
      Insert(h);
      TargetsNow();
    }

    /** The state of the loop in `UpdateFollowing`. */
    ghost predicate UpdatedTo(k: nat, j: nat, newBackup: Func)
      reads `chain, `entries, chain`backup
    {
      |entries| == |chain|
      && forall i :: 0 <= i < |chain| ==>
           chain[i].backup == if k < i < j then newBackup else Nearest(entries[..i], relocated)
    }

    lemma NoneUpdated(k: nat, newBackup: Func)
      requires AllBackups() && |entries| == |chain|
      ensures UpdatedTo(k, k + 1, newBackup)
    {
      hide Nearest;
      forall i | 0 <= i < |chain| ensures chain[i].backup == Nearest(entries[..i], relocated) {
        assert BackupAt(i);
      }
    }

    lemma FollowingUpdated(k: nat, j: nat, hit: bool, newBackup: Func)
      requires UpdatedTo(k, j, newBackup) && k < j <= |entries| && newBackup == Nearest(entries[..k], relocated)
      requires NoHookIn(entries, k + 1, if hit then j - 1 else j)
      requires if hit then k + 1 < j && entries[j - 1].hook != NULL else j == |entries|
      ensures AllUpdated(k)
    {
      hide Nearest, NoHookIn;
      forall i | 0 <= i < |chain| ensures UpdatedAt(i, k) {
        if k < i {
          UntilHook(entries, k + 1, j, hit, i);
        }
      }
    }

    lemma Forward(j: nat)
      requires Chained() && j < |chain|
      ensures chain[j].next == if j + 1 < |chain| then chain[j + 1] else null
      ensures |entries| == |chain| && entries[j].hook == chain[j].hook
    {
      assert ForwardAt(j);
    }

    /** One round of the loop in `UpdateFollowing`. */
    method UpdateHandle(h: HookHandle, newBackup: Func, ghost k: nat, ghost j: nat)
      requires Chained() && CellsKnown() && k < j < |chain| && chain[j] == h && UpdatedTo(k, j, newBackup)
      modifies h`backup, h`user, users
      ensures CellsKnown() && UpdatedTo(k, j + 1, newBackup)
      ensures old(AllFollowed(chain)) ==> AllFollowed(chain)
    {
      hide Nearest;
      h.UpdateBackup(newBackup);
      if old(AllFollowed(chain)) {
        forall i | 0 <= i < |chain| ensures FollowedBy(chain[i]) {
          assert old(FollowedBy(chain[i])) && old(FollowedBy(chain[j]));
        }
      }
    }

    lemma TargetsNow()
      requires Valid()
      ensures entries != [] ==> Targets(entries, instrumented, relocated, tdHook, tdBackup) && enabled
    {
      hide Nearest, Posts, Proper, Targets;
    }

    lemma SameLength()
      requires Chained()
      ensures |entries| == |chain|
    {
    }

    lemma LinkFacts(k: nat)
      requires Linked() && k < |chain| && BackwardBut(-1)
      ensures Chained() && |entries| == |chain| && forall x :: x in chain[k].Front() ==> x in chain
    {
      assert BackwardAt(k);
    }

    lemma BackLinksWhole(k: nat)
      requires k >= |chain| && BackwardBut(k)
      ensures BackwardBut(-1)
    {
      forall i | 0 <= i < |chain| ensures BackwardAt(i) {
      }
    }

    lemma HandlesDistinct()
      requires ForwardValid()
      ensures Distinct()
    {
    }

    lemma BackLinkBroken(k: nat, gone: HookHandle)
      requires k < |chain| && chain[k].previous == gone && gone !in chain
      ensures !BackwardBut(-1)
    {
      assert !BackwardAt(k);
    }

    /** The handles around handle `k`, by its links. */
    lemma Neighbours(k: nat)
      requires Valid() && k < |chain|
      ensures chain[k].previous == if k > 0 then chain[k - 1] else null
      ensures chain[k].next == if k + 1 < |chain| then chain[k + 1] else null
      ensures handleCount == |chain|
    {
      assert ForwardAt(k) && BackwardAt(k);
    }

    lemma Sizes()
      requires Valid()
      ensures handleCount == |chain| == |entries|
      ensures forall k :: 0 <= k < |chain| ==> chain[k].info == this
    {
      hide Nearest, Posts, Proper;
      forall k | 0 <= k < |chain| ensures chain[k].info == this {
        assert ForwardAt(k);
      }
    }

    lemma HookOf(k: nat)
      requires Valid() && k < |chain|
      ensures k < |entries| && chain[k].hook == entries[k].hook
    {
      hide Nearest, Posts, Proper;
      assert ForwardAt(k);
    }

    /** What `TakeOut` starts from. */
    lemma Parts(k: nat)
      requires Valid() && k < |chain|
      ensures Linked() && Chained() && CountsOk() && CellsKnown() && AllBackups() && BackwardBut(-1) && TargetOk()
      ensures Proper(entries, relocated) && Proper(Removed(entries, k), relocated)
      ensures |entries| == |chain| <= 0xffff && |Removed(entries, k)| == |entries| - 1 && enabled
      ensures forall x :: x in chain[k].Front() ==> x in chain
    {
      hide Nearest, Posts, Proper;
      ProperRemoved(entries, k, relocated);
      LinkFacts(k);
    }

    /** What it ends with. */
    lemma Whole()
      requires Linked() && CellsKnown() && AllBackups() && Proper(entries, relocated)
      requires handleCount == |chain| == |entries| && postHandlers == Posts(entries) && 0 < handleCount <= 0xffff
      requires Targets(entries, instrumented, relocated, tdHook, tdBackup) && enabled
      ensures ForwardValid()
    {
      hide Nearest, Posts, Proper;
    }

    /** The counts and the root without handle `k`. */
    method Discount(h: HookHandle, ghost k: nat)
      requires Linked() && CountsOk() && |chain| > 1 && k < |chain| && chain[k] == h
      modifies `handleCount, `postHandlers, `root, `tdRoot
      ensures handleCount == |chain| - 1 && postHandlers == Posts(Removed(entries, k))
      ensures root == tdRoot == (if k == 0 then h.next else chain[0])
    {
      hide Posts;
      assert ForwardAt(k);
      PostsRemoved(entries, k);
      handleCount := handleCount - 1;
      if h.post {
        postHandlers := postHandlers - 1;
      }
      if root == h {
        root := h.next;
        tdRoot := h.next;
      }
    }

    /** What the trampoline jumps to without handle `k`. */
    method Untarget(h: HookHandle, ghost k: nat, previousHook: Func, newBackup: Func)
      requires Chained() && |chain| > 1 && k < |chain| && chain[k] == h && Proper(entries, relocated) && TargetOk()
      requires previousHook == Nearest(entries[..k], NULL) && newBackup == Nearest(entries[..k], relocated)
      modifies `tdHook, `tdBackup
      ensures Targets(Removed(entries, k), instrumented, relocated, tdHook, tdBackup)
    {
      hide Nearest, Proper;
      assert ForwardAt(k);
      TargetAfterRemoval(entries, k, instrumented, relocated, tdHook, tdBackup);
      if h.hook != NULL {
        if tdHook == h.hook {
          tdHook := previousHook;
        }
        if tdBackup == h.hook {
          tdBackup := newBackup;
        }
      }
    }

    /** The backup of handle `i` once those behind handle `k`, up to the next hook, were updated. */
    ghost predicate UpdatedAt(i: nat, k: nat)
      requires i < |chain|
      reads `chain, `entries, chain`backup
    {
      && k <= |entries| && i <= |entries|
      && chain[i].backup
         == if k < i && NoHookIn(entries, k + 1, i) then Nearest(entries[..k], relocated) else Nearest(entries[..i], relocated)
    }

    /** Takes handle `k` out of the list; the handle behind it keeps its back link. */
    method Drop(h: HookHandle, ghost k: nat)
      requires Chained() && k < |chain| && chain[k] == h
      requires root == tdRoot == (if k == 0 then h.next else chain[0])
      requires BackwardBut(-1) && CellsKnown() && AllUpdated(k)
      modifies `chain, `entries, h.Front()`next, h`info
      ensures chain == old(chain)[..k] + old(chain)[k + 1..] && entries == Removed(old(entries), k)
      ensures Linked() && CellsKnown() && h !in chain && h.info == null && |entries| == |chain|
      ensures AllBackups() && BackwardBut(k)
      ensures k < |chain| ==> chain[k].previous == h
    {
      hide Nearest, NoHookIn;
      ghost var es, c := entries, chain;
      assert BackwardAt(k) && ForwardAt(k);
      if h.previous != null {
        h.previous.next := h.next;
      }
      h.info := null;
      chain := c[..k] + c[k + 1..];
      entries := Removed(es, k);
      forall i | 0 <= i < |chain| ensures ForwardAt(i) && BackupAt(i) && (i != k ==> BackwardAt(i)) {
        ghost var j := if i < k then i else i + 1;
        assert chain[i] == c[j] && entries[i] == es[j];
        assert old(ForwardAt(j)) && old(BackwardAt(j)) && old(UpdatedAt(j, k));
        BackupAfterRemoval(es, k, i, relocated);
      }
      if k < |chain| {
        assert old(BackwardAt(k + 1));
      }
    }

    lemma FollowedWithout(c: seq<HookHandle>, k: nat)
      requires AllFollowed(c) && k < |c|
      ensures AllFollowed(c[..k] + c[k + 1..])
    {
      var rest := c[..k] + c[k + 1..];
      forall i | 0 <= i < |rest| ensures rest[i] == c[if i < k then i else i + 1] {
      }
    }

    /** All of the list but its members says that handle `k` is gone. */
    ghost predicate Departing(h: HookHandle, k: nat)
      reads this, chain
    {
      && Chained() && k < |chain| && chain[k] == h && Proper(Removed(entries, k), relocated) && |chain| > 1
      && root == tdRoot == (if k == 0 then h.next else chain[0])
      && BackwardBut(-1) && CellsKnown() && AllUpdated(k)
      && handleCount == |chain| - 1 == |Removed(entries, k)| <= 0xffff && postHandlers == Posts(Removed(entries, k))
      && Targets(Removed(entries, k), instrumented, relocated, tdHook, tdBackup) && enabled
    }

    lemma FrontInChain(k: nat)
      requires Valid() && k < |chain|
      ensures forall x :: x in chain[k].Front() ==> x in chain
    {
      assert BackwardAt(k);
    }

    /** Handle `k` goes, and with it its variable. */
    method Leave(h: HookHandle, ghost k: nat)
      requires Departing(h, k)
      modifies `chain, `entries, `users, h.Front()`next, h`info
      ensures chain == old(chain)[..k] + old(chain)[k + 1..] && entries == Removed(old(entries), k)
      ensures ForwardValid() && h !in chain && h.info == null && BackwardBut(k)
      ensures k < |chain| ==> chain[k].previous == h
      ensures users <= old(users) && (old(AllFollowed(chain)) ==> Followed())
    {
      hide Nearest, Posts, Proper, Chained, Linked, BackwardBut, AllBackups, ForwardAt, BackwardAt, CellsKnown, AllUpdated;
      hide Removed, AllHooks, ForwardValid, AllFollowed, UsersLive;
      if AllFollowed(chain) {
        FollowedWithout(chain, k);
      }
      Drop(h, k);
      LetGo();
      Whole();
    }

    /** What no live handle follows is let go. */
    ghost method LetGo()
      requires CellsKnown()
      modifies `users
      ensures CellsKnown() && UsersLive(chain) && users <= old(users)
    {
      users := set u | u in users && Follows(u, chain);
    }

    // ---- Following the backups ----

    /** What the trampoline jumps to. */
    function Target(): Func
      reads `tdHook, `tdBackup
    {
      if tdHook != NULL then tdHook else tdBackup
    }

    /** `f` is a live hook and `g` its backup. */
    ghost predicate Calls(f: Func, g: Func)
      reads `chain, chain`backup
    {
      exists i :: 0 <= i < |chain| && chain[i].hook == f && f != NULL && chain[i].backup == g
    }

    /** Control flows along `path`: from the trampoline through hooks that each call their backup
        to the relocated code. */
    ghost predicate IsPath(path: seq<Func>)
      reads `chain, `tdHook, `tdBackup, chain`backup
    {
      && path != [] && path[0] == Target() && path[|path| - 1] == relocated
      && forall i :: 0 <= i < |path| - 1 ==> Calls(path[i], path[i + 1])
    }

    lemma CallsAt(i: nat)
      requires Valid() && i < |chain|
      ensures entries[i].hook != NULL ==> Calls(entries[i].hook, Nearest(entries[..i], relocated))
    {
      hide Nearest, Posts, Proper;
      assert ForwardAt(i) && BackupAt(i);
    }

    lemma {:induction false} PathCalls(n: nat)
      requires Valid() && n <= |entries|
      ensures forall i :: 0 <= i < |Path(entries[..n], relocated)| - 1 ==>
                Calls(Path(entries[..n], relocated)[i], Path(entries[..n], relocated)[i + 1])
      decreases n
    {
      hide Nearest, Posts, Proper, Path, Calls, ForwardAt, AllBackups, CellsKnown, TargetOk, BackwardBut;
      PathSnoc(entries, n, relocated);
      if n > 0 {
        PathCalls(n - 1);
        CallsAt(n - 1);
        PathStarts(entries[..n - 1], relocated);
        var p := Path(entries[..n], relocated);
        var q := Path(entries[..n - 1], relocated);
        forall i | 0 <= i < |p| - 1 ensures Calls(p[i], p[i + 1]) {
          if p != q && i > 0 {
            assert p[i] == q[i - 1] && p[i + 1] == q[i];
          }
        }
      }
    }

    /** Every call of the hooked function visits every live hook once, newest first, and ends in
        the relocated code. */
    lemma VisitsNewestFirst()
      requires Valid() && chain != []
      ensures IsPath(Reversed(Hooks(entries)) + [relocated])
    {
      hide Nearest, Posts, Proper, Path, Calls, ForwardAt, AllBackups, CellsKnown, BackwardBut;
      assert entries[..|entries|] == entries;
      PathCalls(|entries|);
      PathStarts(entries, relocated);
      PathIsReversed(entries, relocated);
    }

    lemma OneCallee(f: Func, g: Func, h: Func)
      requires Valid() && Calls(f, g) && Calls(f, h)
      ensures g == h && f != relocated
    {
      hide Nearest, Posts;
      var i :| 0 <= i < |chain| && chain[i].hook == f && chain[i].backup == g;
      var j :| 0 <= j < |chain| && chain[j].hook == f && chain[j].backup == h;
      assert ForwardAt(i) && ForwardAt(j);
    }

    /** There is no other way through the hooks. */
    lemma {:induction false} OnlyPath(p: seq<Func>, q: seq<Func>)
      requires Valid() && p != [] && q != [] && p[0] == q[0]
      requires p[|p| - 1] == relocated && q[|q| - 1] == relocated
      requires forall i :: 0 <= i < |p| - 1 ==> Calls(p[i], p[i + 1])
      requires forall i :: 0 <= i < |q| - 1 ==> Calls(q[i], q[i + 1])
      ensures p == q
      decreases |p|
    {
      hide Calls, Valid;
      if |p| > 1 {
        assert Calls(p[0], p[1]);
        OneCallee(p[0], p[1], p[1]);
      }
      if |q| > 1 {
        assert Calls(q[0], q[1]);
        OneCallee(q[0], q[1], q[1]);
      }
      if |p| > 1 {
        OneCallee(p[0], p[1], q[1]);
        forall i | 0 <= i < |p[1..]| - 1 ensures Calls(p[1..][i], p[1..][i + 1]) {
          assert Calls(p[i + 1], p[i + 2]);
        }
        forall i | 0 <= i < |q[1..]| - 1 ensures Calls(q[1..][i], q[1..][i + 1]) {
          assert Calls(q[i + 1], q[i + 2]);
        }
        OnlyPath(p[1..], q[1..]);
        assert p == [p[0]] + p[1..] && q == [q[0]] + q[1..];
      }
    }

    // ---- Hooks that call the original through their variable ----

    /** `f` is a live hook and calls `g`: what its user's variable holds, or its backup if the user
        gave none. */
    ghost predicate CallsThrough(f: Func, g: Func)
      reads `chain, `cells, chain`backup, cells
    {
      exists i :: 0 <= i < |chain| && chain[i].hook == f && f != NULL && CalleeIs(i, g)
    }

    ghost predicate CalleeIs(i: nat, g: Func)
      requires i < |chain|
      reads `chain, `cells, chain`backup, cells
    {
      if chain[i].given == null then chain[i].backup == g
      else chain[i].given in cells && chain[i].given.value == g
    }

    ghost predicate NoneWritten()
      reads `chain, `written
    {
      forall i :: 0 <= i < |chain| ==> chain[i].given == null || chain[i].given !in written
    }

    ghost predicate IsPathThrough(path: seq<Func>)
      reads `chain, `cells, `tdHook, `tdBackup, chain`backup, cells
    {
      && path != [] && path[0] == Target() && path[|path| - 1] == relocated
      && forall i :: 0 <= i < |path| - 1 ==> CallsThrough(path[i], path[i + 1])
    }

    /** A hook whose variable the user left alone calls its backup, whichever way it goes. */
    lemma SameCalls(f: Func, g: Func)
      requires AllFollowed(chain) && NoneWritten()
      ensures CallsThrough(f, g) <==> Calls(f, g)
    {
      forall i | 0 <= i < |chain| ensures CalleeIs(i, g) <==> chain[i].backup == g {
        assert FollowedBy(chain[i]);
      }
    }

    /** A hook whose variable the user wrote calls its backup all the same, or what the user wrote. */
    lemma CallsBackupOrWritten(f: Func, g: Func)
      requires AllFollowed(chain) && CallsThrough(f, g)
      ensures Calls(f, g) || exists c :: c in written && written[c] == g
    {
      var i :| 0 <= i < |chain| && chain[i].hook == f && f != NULL && CalleeIs(i, g);
      assert FollowedBy(chain[i]);
    }

    /** Every call visits every live hook once, newest first, also when the hooks call through
        their users' variables. */
    lemma VisitsNewestFirstThrough()
      requires Valid() && Followed() && NoneWritten() && chain != []
      ensures IsPathThrough(Reversed(Hooks(entries)) + [relocated])
    {
      hide Nearest, Posts, Proper, ForwardValid, BackwardBut, AllFollowed, Calls, CallsThrough, NoneWritten, Reversed, Hooks;
      VisitsNewestFirst();
      var path := Reversed(Hooks(entries)) + [relocated];
      forall i | 0 <= i < |path| - 1 ensures CallsThrough(path[i], path[i + 1]) {
        assert Calls(path[i], path[i + 1]);
        SameCalls(path[i], path[i + 1]);
      }
    }

    lemma OnlyPathThrough(p: seq<Func>, q: seq<Func>)
      requires Valid() && Followed() && NoneWritten() && IsPathThrough(p) && IsPathThrough(q)
      ensures p == q
    {
      hide Valid, AllFollowed, Calls, CallsThrough, NoneWritten;
      forall i | 0 <= i < |p| - 1 ensures Calls(p[i], p[i + 1]) {
        SameCalls(p[i], p[i + 1]);
      }
      forall i | 0 <= i < |q| - 1 ensures Calls(q[i], q[i + 1]) {
        SameCalls(q[i], q[i + 1]);
      }
      OnlyPath(p, q);
    }

    lemma FreeIsUnused(u: Cell?)
      requires Free(Books(), u)
      ensures Unused(u)
    {
      forall i | 0 <= i < |chain| && u != null ensures chain[i].given != u {
        assert Givens(chain)[i] == chain[i].given;
      }
    }

    /** The user writes one of the variables. */
    method Overwrite(c: Cell, v: Func)
      requires Valid()
      modifies `written, c
      ensures Valid() && c.value == v && written == old(written)[c := v]
      ensures old(Followed()) ==> Followed()
    {
      hide Nearest, Posts, Proper, Linked, CellsKnown, CountsOk, TargetOk, AllBackups, BackwardBut, UsersLive;
      c.value := v;
      written := written[c := v];
      if old(AllFollowed(chain)) {
        forall i | 0 <= i < |chain| ensures FollowedBy(chain[i]) {
          assert old(FollowedBy(chain[i]));
        }
      }
    }

    /** What the list stands for: entries, the variables given with them, and what users wrote. */
    ghost function Books(): Ledger
      reads `chain, `entries, `written, `instrumented
    {
      Ledger(entries, Givens(chain), written, instrumented)
    }

    lemma RootIsFirst()
      requires Linked()
      ensures root == null <==> chain == []
      ensures chain == [] ==> entries == []
    {
    }
  }

  // ---- Runs ----

  datatype Ledger = Ledger(entries: seq<Entry>, givens: seq<Cell?>, written: map<Cell, Func>, instrumented: bool)

  /** A hook or an instrumentation may name a variable for the backup. */
  datatype Op =
    | Hook(f: Func, variable: Cell?)
    | Instrument(post: bool, variable: Cell?)
    | Unhook(k: nat)
    | Overwrite(cell: Cell, v: Func)

  ghost function Givens(chain: seq<HookHandle>): seq<Cell?> {
    seq(|chain|, i requires 0 <= i < |chain| => chain[i].given)
  }

  /** Requests the library answers: distinct hooks, distinct variables, at most 0xffff handles, and
      no removal of the last handle, which ends the life of the list. */
  ghost predicate Legal(l: Ledger, op: Op, relocated: Func) {
    match op
    case Hook(f, c) =>
      |l.entries| < 0xffff && f != NULL && Proper(l.entries + [Entry(f, false)], relocated) && Free(l, c)
    case Instrument(post, c) =>
      |l.entries| < 0xffff && Proper(l.entries + [Entry(NULL, post)], relocated) && Free(l, c)
    case Unhook(k) => k < |l.entries| && |l.entries| > 1
    case Overwrite(_, _) => true
  }

  ghost predicate Free(l: Ledger, c: Cell?) {
    c == null || c !in l.givens
  }

  ghost function After(l: Ledger, op: Op): Ledger {
    match op
    case Hook(f, c) => Ledger(l.entries + [Entry(f, false)], l.givens + [c], l.written - Single(c), l.instrumented)
    case Instrument(post, c) => Ledger(l.entries + [Entry(NULL, post)], l.givens + [c], l.written - Single(c), true)
    case Unhook(k) =>
      if k < |l.entries| && k < |l.givens| then l.(entries := Removed(l.entries, k), givens := Removed(l.givens, k)) else l
    case Overwrite(c, v) => l.(written := l.written[c := v])
  }

  ghost function AfterAll(l: Ledger, ops: seq<Op>): Ledger {
    if ops == [] then l else After(AfterAll(l, ops[..|ops| - 1]), ops[|ops| - 1])
  }

  ghost predicate LegalAll(l: Ledger, ops: seq<Op>, relocated: Func)
    decreases |ops|
  {
    ops == [] ||
    (LegalAll(l, ops[..|ops| - 1], relocated) && Legal(AfterAll(l, ops[..|ops| - 1]), ops[|ops| - 1], relocated))
  }

  lemma {:induction false} LegalPrefix(l: Ledger, ops: seq<Op>, relocated: Func, n: nat)
    requires LegalAll(l, ops, relocated) && n <= |ops|
    ensures LegalAll(l, ops[..n], relocated)
    decreases |ops|
  {
    hide Legal;
    if n == |ops| {
      assert ops[..n] == ops;
    } else {
      assert ops[..|ops| - 1][..n] == ops[..n];
      LegalPrefix(l, ops[..|ops| - 1], relocated, n);
    }
  }

  lemma LegalNext(l: Ledger, ops: seq<Op>, relocated: Func, n: nat)
    requires LegalAll(l, ops, relocated) && n < |ops|
    ensures Legal(AfterAll(l, ops[..n]), ops[n], relocated)
    ensures AfterAll(l, ops[..n + 1]) == After(AfterAll(l, ops[..n]), ops[n])
  {
    hide Legal, After;
    LegalPrefix(l, ops, relocated, n + 1);
    assert ops[..n + 1][..n] == ops[..n];
  }

  /** The variables that `ops` name. */
  ghost function Named(ops: seq<Op>): set<Cell> {
    if ops == [] then {} else Named(ops[..|ops| - 1]) + NamedBy(ops[|ops| - 1])
  }

  ghost function NamedBy(op: Op): set<Cell> {
    match op
    case Hook(_, c) => Single(c)
    case Instrument(_, c) => Single(c)
    case Unhook(_) => {}
    case Overwrite(c, _) => {c}
  }

  /** The handle a caller was given at a place of the list. */
  method HandleAt(info: HookInfo, k: nat) returns (h: HookHandle)
    requires info.Valid() && k < |info.chain|
    ensures h == info.chain[k]
  {
    hide Nearest, Posts, Proper, HookInfo.AllBackups, HookInfo.TargetOk, HookInfo.CellsKnown;
    h := info.root;
    var i := 0;
    while i < k
      invariant 0 <= i <= k && h == info.chain[i]
    {
      info.Neighbours(i);
      h := h.next;
      i := i + 1;
    }
  }

  /** One request. */
  method Serve(info: HookInfo, op: Op)
    requires info.Valid() && Legal(info.Books(), op, info.relocated)
    modifies info, info.chain, info.users, NamedBy(op)
    ensures info.Valid() && info.Books() == After(old(info.Books()), op)
    ensures old(info.Followed()) ==> info.Followed()
    ensures info.users <= old(info.users) + NamedBy(op)
    ensures forall i :: 0 <= i < |info.chain| ==> info.chain[i] in old(info.chain) || fresh(info.chain[i])
  {
    hide Nearest, Posts, Proper, HookInfo.ForwardValid, HookInfo.BackwardBut, HookInfo.Followed, Removed;
    hide HookInfo.Unused, Givens;
    info.Sizes();
    match op {
      case Hook(f, c) =>
        info.FreeIsUnused(c);
        var h := info.NewHookHandle(f, false, c);
        GivensSnoc(old(info.chain), h);
      case Instrument(post, c) =>
        info.FreeIsUnused(c);
        var h := info.NewHookHandle(NULL, post, c);
        GivensSnoc(old(info.chain), h);
      case Unhook(k) =>
        var h := HandleAt(info, k);
        h.UnhookRepaired(k);
        GivensRemoved(old(info.chain), k);
      case Overwrite(c, v) =>
        info.Overwrite(c, v);
    }
  }

  lemma GivensSnoc(chain: seq<HookHandle>, h: HookHandle)
    ensures Givens(chain + [h]) == Givens(chain) + [h.given]
  {
  }

  lemma GivensRemoved(chain: seq<HookHandle>, k: nat)
    requires k < |chain|
    ensures |Givens(chain)| == |chain| && Givens(chain[..k] + chain[k + 1..]) == Removed(Givens(chain), k)
  {
  }

  lemma NamedGrows(ops: seq<Op>, n: nat)
    requires n < |ops|
    ensures Named(ops[..n + 1]) == Named(ops[..n]) + NamedBy(ops[n])
  {
    assert ops[..n + 1][..n] == ops[..n];
  }

  lemma {:induction false} NamedPrefix(ops: seq<Op>, n: nat)
    requires n <= |ops|
    ensures Named(ops[..n]) <= Named(ops)
    decreases |ops| - n
  {
    if n < |ops| {
      NamedGrows(ops, n);
      NamedPrefix(ops, n + 1);
    } else {
      assert ops[..n] == ops;
    }
  }

  lemma NothingDone(l: Ledger)
    ensures AfterAll(l, []) == l
  {
  }

  ghost predicate Instrumented(ops: seq<Op>) {
    exists i :: 0 <= i < |ops| && ops[i].Instrument?
  }

  /** The ledger remembers whether any instrumentation was served. */
  lemma {:induction false} InstrumentedAfter(l: Ledger, ops: seq<Op>)
    ensures AfterAll(l, ops).instrumented <==> l.instrumented || Instrumented(ops)
    decreases |ops|
  {
    if ops != [] {
      var front, last := ops[..|ops| - 1], ops[|ops| - 1];
      InstrumentedAfter(l, front);
      if Instrumented(front) {
        var i :| 0 <= i < |front| && front[i].Instrument?;
        assert ops[i].Instrument?;
      }
      if last.Instrument? {
        assert ops[|ops| - 1].Instrument?;
      }
      if Instrumented(ops) && !last.Instrument? {
        var i :| 0 <= i < |ops| && ops[i].Instrument?;
        assert front[i].Instrument?;
      }
    }
  }

  /** Any sequence of hooks, instrumentations and unhooks, in any order, and of users writing their
      variables keeps the list, the backups, the trampoline data and the counts in agreement. The
      trampoline jumps straight to the newest hook exactly as long as no instrumentation was served.
      Every variable whose user did not write it holds the backup of its handle; a variable that no
      handle follows any more is written by nobody but its user. */
  method Perform(info: HookInfo, ops: seq<Op>)
    requires info.Valid() && LegalAll(info.Books(), ops, info.relocated)
    modifies info, info.chain, info.users, Named(ops)
    ensures info.Valid() && info.Books() == AfterAll(old(info.Books()), ops)
    ensures info.entries != [] ==>
              Targets(info.entries, old(info.instrumented) || Instrumented(ops), info.relocated, info.tdHook, info.tdBackup)
    ensures old(info.Followed()) ==> info.Followed()
    ensures old(info.Followed()) && info.NoneWritten() && info.chain != [] ==>
              info.IsPathThrough(Reversed(Hooks(info.entries)) + [info.relocated])
    ensures info.users <= old(info.users) + Named(ops)
  {
    hide Nearest, Posts, Proper, HookInfo.Valid, HookInfo.Followed, LegalAll, Legal, After, HookInfo.IsPathThrough;
    hide Named, HookInfo.NoneWritten, AfterAll, Targets;
    ghost var start := info.Books();
    NothingDone(start);
    var n := 0;
    assert ops[..0] == [];
    while n < |ops|
      invariant 0 <= n <= |ops| && info.Valid() && info.Books() == AfterAll(start, ops[..n])
      invariant old(info.Followed()) ==> info.Followed()
      invariant info.users <= old(info.users) + Named(ops)
      invariant forall i :: 0 <= i < |info.chain| ==> info.chain[i] in old(info.chain) || fresh(info.chain[i])
    {
      LegalNext(start, ops, info.relocated, n);
      NamedGrows(ops, n);
      NamedPrefix(ops, n + 1);
      assert NamedBy(ops[n]) <= Named(ops);
      Serve(info, ops[n]);
      n := n + 1;
    }
    assert ops[..n] == ops;
    info.TargetsNow();
    InstrumentedAfter(start, ops);
    if old(info.Followed()) && info.NoneWritten() && info.chain != [] {
      info.VisitsNewestFirstThrough();
    }
  }

  /** One request to the code as it is, which may take out the newest handle only. */
  method ServeAsWritten(info: HookInfo, op: Op)
    requires info.Valid() && Legal(info.Books(), op, info.relocated) && (op.Unhook? ==> op.k + 1 == |info.entries|)
    modifies info, info.chain, info.users, NamedBy(op)
    ensures info.Valid() && info.Books() == After(old(info.Books()), op)
    ensures old(info.Followed()) ==> info.Followed()
    ensures info.users <= old(info.users) + NamedBy(op)
    ensures forall i :: 0 <= i < |info.chain| ==> info.chain[i] in old(info.chain) || fresh(info.chain[i])
  {
    hide Nearest, Posts, Proper, HookInfo.ForwardValid, HookInfo.BackwardBut, HookInfo.Followed, Removed, Givens;
    if op.Unhook? {
      info.Sizes();
      var h := HandleAt(info, op.k);
      h.UnhookExt(op.k);
      GivensRemoved(old(info.chain), op.k);
    } else {
      Serve(info, op);
    }
  }

  /** Every removal takes out the newest handle there is. */
  ghost predicate NewestFirst(l: Ledger, ops: seq<Op>) {
    forall i :: 0 <= i < |ops| && ops[i].Unhook? ==> ops[i].k + 1 == |AfterAll(l, ops[..i]).entries|
  }

  /** For runs that remove newest first the code as it is does all that `Perform` promises. */
  method PerformNewestFirst(info: HookInfo, ops: seq<Op>)
    requires info.Valid() && LegalAll(info.Books(), ops, info.relocated) && NewestFirst(info.Books(), ops)
    modifies info, info.chain, info.users, Named(ops)
    ensures info.Valid() && info.Books() == AfterAll(old(info.Books()), ops)
    ensures info.entries != [] ==>
              Targets(info.entries, old(info.instrumented) || Instrumented(ops), info.relocated, info.tdHook, info.tdBackup)
    ensures old(info.Followed()) ==> info.Followed()
    ensures old(info.Followed()) && info.NoneWritten() && info.chain != [] ==>
              info.IsPathThrough(Reversed(Hooks(info.entries)) + [info.relocated])
    ensures info.users <= old(info.users) + Named(ops)
  {
    hide Nearest, Posts, Proper, HookInfo.Valid, HookInfo.Followed, LegalAll, Legal, After, HookInfo.IsPathThrough;
    hide Named, HookInfo.NoneWritten, AfterAll, Targets;
    ghost var start := info.Books();
    NothingDone(start);
    var n := 0;
    assert ops[..0] == [];
    while n < |ops|
      invariant 0 <= n <= |ops| && info.Valid() && info.Books() == AfterAll(start, ops[..n])
      invariant old(info.Followed()) ==> info.Followed()
      invariant info.users <= old(info.users) + Named(ops)
      invariant forall i :: 0 <= i < |info.chain| ==> info.chain[i] in old(info.chain) || fresh(info.chain[i])
    {
      LegalNext(start, ops, info.relocated, n);
      NamedGrows(ops, n);
      NamedPrefix(ops, n + 1);
      assert NamedBy(ops[n]) <= Named(ops);
      ServeAsWritten(info, ops[n]);
      n := n + 1;
    }
    assert ops[..n] == ops;
    info.TargetsNow();
    InstrumentedAfter(start, ops);
    if old(info.Followed()) && info.NoneWritten() && info.chain != [] {
      info.VisitsNewestFirstThrough();
    }
  }

  /** Three hooks 2, 3 and 4 of one function. */
  method ThreeHooks() returns (info: HookInfo, second: HookHandle)
    ensures fresh(info) && info.Valid() && fresh(info.chain) && info.users == {}
    ensures info.entries == [Entry(2, false), Entry(3, false), Entry(4, false)]
    ensures |info.chain| == 3 && info.chain[1] == second && second.info == info && second.hook == 3
  {
    hide Posts, HookInfo.ForwardValid, HookInfo.BackwardBut, Nearest, HookInfo.FollowedIn, HookInfo.Unused;
    info := new HookInfo(1);
    ProperThree();
    assert [] + [Entry(2, false)] == [Entry(2, false)];
    var first := info.NewHookHandle(2, false, null);
    info.Sizes();
    assert [Entry(2, false)] + [Entry(3, false)] == [Entry(2, false), Entry(3, false)];
    second := info.NewHookHandle(3, false, null);
    info.Sizes();
    assert [Entry(2, false), Entry(3, false)] + [Entry(4, false)] == [Entry(2, false), Entry(3, false), Entry(4, false)];
    var third := info.NewHookHandle(4, false, null);
    info.Sizes();
    assert info.chain == [first, second, third];
    info.HookOf(1);
  }

  /** Why the repair is needed: three hooks 2, 3 and 4 of one function, and the middle one taken
      out by the code as it is. The handle of 4 still points back to the deleted handle of 3, so
      the walk of the next `UnhookExt` starts there and finds 3 as the hook to go back to, where
      2 is the one that is live. */
  method DanglingBackLink() returns (info: HookInfo, gone: HookHandle)
    ensures fresh(info) && info.ForwardValid() && !info.Valid()
    ensures info.entries == [Entry(2, false), Entry(4, false)]
    ensures gone !in info.chain && |info.chain| == 2 && info.chain[1].previous == gone
    ensures gone.hook == 3 && Nearest(info.entries[..1], NULL) == 2
  {
    hide Posts, HookInfo.ForwardValid, HookInfo.BackwardBut, Nearest, HookInfo.FollowedIn;
    info, gone := ThreeHooks();
    gone.UnhookExt(1);
    assert info.entries == [Entry(2, false), Entry(4, false)];
    assert info.entries[..1] == [Entry(2, false)];
    NearestOne(Entry(2, false), NULL);
  }
}
