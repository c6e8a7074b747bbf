/** Task contexts and their stacks: creation, pooling and destruction (internal/debugger/task.go,
    internal/debugger/runner.go, internal/debugger/arm64/arm64.go). */
module ContextPool {
  import opened Ranges

  /** A saved context with the stack it was made for.  A forked one shares its parent's stack and has
      one release function instead of two. */
  class TaskContext {
    const stack: nat
    const releases: nat
    var sp: nat

    constructor (stack: nat, releases: nat)
      ensures this.stack == stack && this.releases == releases
    {
      this.stack, this.releases, this.sp := stack, releases, 0;
    }
  }

  class TaskManager {
    const stackSize: nat
    var mapAddr: nat                      // the region source hands out increasing addresses
    var closed: bool
    var current: TaskContext?             // the pool goroutine offers this one next
    var contexts: seq<TaskContext>        // and these after it, last first
    var id: nat
    var tasks: map<nat, TaskContext>      // contexts of the tasks that are not closed
    ghost var created: set<nat>           // those tasks among them made by CreateTask
    ghost var pooled: set<TaskContext>    // what the pool goroutine holds
    ghost var owned: set<TaskContext>     // contexts with a stack of their own, not yet destroyed

    constructor (stackSize: nat)
      requires stackSize > 0
      ensures Valid() && tasks == map[] && created == {} && this.stackSize == stackSize
    {
      this.stackSize := stackSize;
      mapAddr, closed, current, contexts, id := 0x400000, false, null, [], 0;
      tasks, created, pooled, owned := map[], {}, {}, {};
    }

    /** The stack ranges below the two stack tops do not meet. */
    predicate Apart(c: TaskContext, d: TaskContext) {
      c.stack + stackSize <= d.stack || d.stack + stackSize <= c.stack
    }

    ghost predicate PoolOk()
      reads this
    {
      && (current == null ==> contexts == [])
      && (forall c :: c in pooled ==> c == current || c in contexts)
      && (current != null ==> current in pooled && current !in contexts)
      && (forall c :: c in contexts ==> c in pooled)
      && (forall i, j :: 0 <= i < j < |contexts| ==> contexts[i] != contexts[j])
    }

    /** Every context is in one place only, and different owned contexts have different stacks. */
    ghost predicate Valid()
      reads this
    {
      && stackSize > 0 && PoolOk() && pooled <= owned && created <= tasks.Keys
      && (forall t :: t in tasks ==> t <= id && tasks[t] !in pooled)
      && (forall t :: t in tasks ==> (t in created <==> tasks[t] in owned))
      && (forall t :: t in tasks ==> tasks[t].releases == if t in created then 2 else 1)
      && (forall t, u :: t in tasks && u in tasks && t != u ==> tasks[t] != tasks[u])
      && (forall c :: c in owned ==> c.releases == 2 && stackSize <= c.stack <= mapAddr)
      && (forall c, d :: c in owned && d in owned && c != d ==> Apart(c, d))
    }

    /** What freeing `c` may come to: destroyed or pooled, and always pooled if it has a stack of its own
        and the manager is open. */
    ghost predicate Freed(c: TaskContext, pooled0: set<TaskContext>, owned0: set<TaskContext>)
      reads this
    {
      || (pooled == pooled0 && owned == owned0 - {c} && (c.releases == 1 || closed))
      || (pooled == pooled0 + {c} && owned == owned0 && c.releases != 1)
    }

    /** The pool goroutine hands out what it offers, possibly nil, and picks the next. */
    method AllocTaskContext() returns (c: TaskContext?)
      requires Valid()
      modifies this`current, this`contexts, this`pooled
      ensures Valid() && c == old(current)
      ensures c != null ==> c in old(pooled) && pooled == old(pooled) - {c}
      ensures c == null ==> pooled == old(pooled)
    {
      c := current;
      pooled := if c == null then pooled else pooled - {c};
      var n := |contexts| - 1;
      if n == -1 {
        current := null;
      } else {
        current := contexts[n];
        contexts := contexts[..n];
      }
    }

    /** Destroys a forked context and pools any other; once the manager is closed the pool goroutine may
        still take it or not, and then it is destroyed. */
    method FreeTaskContext(c: TaskContext)
      requires Valid() && c !in pooled && c.releases == if c in owned then 2 else 1
      requires forall t :: t in tasks ==> tasks[t] != c
      modifies this`current, this`contexts, this`pooled, this`owned
      ensures Valid() && Freed(c, old(pooled), old(owned))
    {
      var takes: bool := *;
      if c.releases == 1 || (closed && !takes) {
        owned := owned - {c};
        return;
      }
      if current == null {
        current := c;
      } else {
        contexts := contexts + [c];
      }
      pooled := pooled + {c};
    }

    /** A new context with a stack region of its own; `gap` bytes went to other clients of the region
        source since, and the mapping may fail. */
    method NewTaskContext(gap: nat, mapOk: bool) returns (c: TaskContext?)
      requires Valid()
      modifies this`mapAddr, this`owned
      ensures Valid() && (c != null <==> mapOk)
      ensures c != null ==> fresh(c) && c.releases == 2 && owned == old(owned) + {c}
      ensures c == null ==> owned == old(owned)
    {
      var base := mapAddr + gap;
      mapAddr := base + stackSize;
      if !mapOk {
        return null;
      }
      c := new TaskContext(base + stackSize, 2);
      owned := owned + {c};
    }

    /** A new context whose registers have been saved; it goes to the pool if saving them fails. */
    method NewSavedContext(gap: nat, mapOk: bool, saveOk: bool) returns (c: TaskContext?)
      requires Valid()
      modifies this`mapAddr, this`owned, this`current, this`contexts, this`pooled
      ensures Valid() && (c != null <==> mapOk && saveOk) && old(pooled) <= pooled
      ensures c != null ==> fresh(c) && c.releases == 2 && c in owned && pooled == old(pooled)
    {
      c := NewTaskContext(gap, mapOk);
      if c != null && !saveOk {
        FreeTaskContext(c);
        c := null;
      }
    }

    /** The task gets the next number and starts at the top of its stack. */
    method StartTask(c: TaskContext) returns (t: nat)
      requires Valid() && c in owned && c !in pooled && forall u :: u in tasks ==> tasks[u] != c
      modifies this`id, this`tasks, this`created, c
      ensures Valid() && t !in old(tasks) && tasks == old(tasks)[t := c]
      ensures created == old(created) + {t} && c.sp == c.stack
    {
      c.sp := c.stack;
      id := id + 1;
      t := id;
      tasks := tasks[t := c];
      created := created + {t};
    }

    /** Takes a pooled context or makes a new one, and starts it at the top of its stack. */
    method CreateTask(gap: nat, mapOk: bool, saveOk: bool) returns (t: nat, ok: bool)
      requires Valid()
      modifies this, pooled
      ensures Valid()
      ensures !ok ==> tasks == old(tasks) && created == old(created) && old(pooled) <= pooled
      ensures ok ==> t !in old(tasks) && t in tasks && tasks == old(tasks)[t := tasks[t]]
      ensures ok ==> pooled == old(pooled) - {tasks[t]} && (old(pooled) != {} ==> tasks[t] in old(pooled))
      ensures ok ==> created == old(created) + {t} && tasks[t].sp == tasks[t].stack
      ensures !old(closed) && !ok ==> !mapOk || !saveOk
    {
      t, ok := 0, false;
      var offered: bool := *;  // once closed, the pool goroutine may still be offering or not
      if closed && !offered {
        return;
      }
      var c := AllocTaskContext();
      if c == null {
        c := NewSavedContext(gap, mapOk, saveOk);
        if c == null {
          return;
        }
      }
      ok := true;
      t := StartTask(c);
    }

    /** A fork copies the context of a task and shares its stack; it never enters the pool. */
    method Fork(t: nat) returns (u: nat)
      requires Valid() && t in tasks
      modifies this
      ensures Valid() && u !in old(tasks) && created == old(created) && pooled == old(pooled)
      ensures u in tasks && tasks == old(tasks)[u := tasks[u]] && fresh(tasks[u])
      ensures tasks[u].stack == tasks[t].stack && tasks[u].releases == 1
    {
      var c := new TaskContext(tasks[t].stack, 1);
      id := id + 1;
      u := id;
      tasks := tasks[u := c];
    }

    /** Closing a task, once, gives its context back. */
    method CloseTask(t: nat)
      requires Valid() && t in tasks
      modifies this
      ensures Valid() && tasks == old(tasks) - {t} && created == old(created) - {t}
      ensures Freed(old(tasks)[t], old(pooled), old(owned)) && (old(tasks)[t].releases == 1 <==> t !in old(created))
      ensures closed == old(closed)
    {
      var c := tasks[t];
      tasks := tasks - {t};
      created := created - {t};
      FreeTaskContext(c);
    }

    method Close()
      requires Valid()
      modifies this`closed
      ensures Valid() && closed
    {
      closed := true;
    }

    /** The bytes of the stack that belongs to a context. */
    function StackBytes(c: TaskContext): set<nat>
      requires stackSize <= c.stack
    {
      Span(c.stack - stackSize, stackSize)
    }

    /** Any two live tasks made by CreateTask have different contexts, and stacks that share no byte
        with each other or with a pooled one. */
    lemma StacksExclusive(t: nat, u: nat)
      requires Valid() && t in created && u in created && t != u
      ensures tasks[t] != tasks[u] && stackSize <= tasks[t].stack && stackSize <= tasks[u].stack
      ensures StackBytes(tasks[t]) !! StackBytes(tasks[u])
      ensures forall c :: c in pooled ==> stackSize <= c.stack && StackBytes(tasks[t]) !! StackBytes(c)
    {
      assert Apart(tasks[t], tasks[u]);
      forall c | c in pooled ensures stackSize <= c.stack && StackBytes(tasks[t]) !! StackBytes(c) {
        assert c in owned && tasks[t] in owned && c != tasks[t] && Apart(c, tasks[t]);
      }
    }
  }
}
