/**
 * Context: a log of typed entries collected while an operation runs. Error,
 * fatal and warning entries make the context dirty; debug and info entries
 * leave it clean.
 */
module Contexts {
  import opened Wrappers

  /** Context.Type: the kind of an entry and whether it taints the context. */
  datatype Type = DEBUG | ERROR | FATAL | INFO | WARN {
    function IsDirty(): (r: bool)
      ensures r <==> this == ERROR || this == FATAL || this == WARN
    {
      match this
      case DEBUG => false
      case ERROR => true
      case FATAL => true
      case INFO => false
      case WARN => true
    }

    function IsClean(): (r: bool)
      ensures r <==> this == DEBUG || this == INFO
    {
      !IsDirty()
    }
  }

  /** A throwable attached to an entry, identified by its description. */
  datatype Throwable = Throwable(description: string)

  /** One message parameter: some text, or a throwable passed as a parameter. */
  datatype Param = Text(text: string) | Cause(cause: Throwable)

  /** Context.Entry: the five final fields of an entry; `sourceClass` is the class name. */
  datatype Entry = Entry(kind: Type, sourceClass: string, throwable: Option<Throwable>, message: string, params: seq<Param>)

  /** A log is clean when, entry by entry, no entry is of a dirty type. */
  predicate CleanLog(log: seq<Entry>)
    decreases |log|
  {
    |log| == 0 || (log[0].kind.IsClean() && CleanLog(log[1..]))
  }

  /** A log is clean exactly when none of its entries is dirty. */
  lemma {:induction false} CleanLogIff(log: seq<Entry>)
    ensures CleanLog(log) <==> forall i :: 0 <= i < |log| ==> log[i].kind.IsClean()
    decreases |log|
  {
    if |log| > 0 {
      CleanLogIff(log[1..]);
      assert forall i :: 1 <= i < |log| ==> log[i] == log[1..][i - 1];
    }
  }

  /** Appending to a log: the result is clean exactly when both parts are. */
  lemma {:induction false} CleanLogAppend(a: seq<Entry>, b: seq<Entry>)
    ensures CleanLog(a + b) <==> CleanLog(a) && CleanLog(b)
    decreases |a|
  {
    if |a| > 0 {
      assert (a + b)[1..] == a[1..] + b;
      CleanLogAppend(a[1..], b);
    } else {
      assert a + b == b;
    }
  }

  /** A log with a dirty entry anywhere in it is dirty. */
  lemma DirtyEntryTaints(log: seq<Entry>, i: int)
    requires 0 <= i < |log| && log[i].kind.IsDirty()
    ensures !CleanLog(log)
  {
    CleanLogIff(log);
  }

  class Context {
    /** The entries, oldest first. */
    var entries: seq<Entry>

    /** Context.create(c, logger): a new, empty and therefore clean context. */
    constructor ()
      ensures entries == []
      ensures CleanLog(entries)
    {
      entries := [];
    }

    /** Context.getEntries(): the entries recorded so far. */
    function GetEntries(): (r: seq<Entry>)
      reads this
      ensures |r| == |entries|
      ensures forall i :: 0 <= i < |r| ==> r[i] == entries[i]
    {
      entries
    }

    /** Context.isClean(): scans the entries and stops at the first dirty one. */
    method IsClean() returns (clean: bool)
      ensures clean <==> CleanLog(entries)
      ensures clean <==> forall i :: 0 <= i < |entries| ==> entries[i].kind.IsClean()
    {
      CleanLogIff(entries);
      var i := 0;
      while i < |entries|
        invariant 0 <= i <= |entries|
        invariant forall j :: 0 <= j < i ==> entries[j].kind.IsClean()
      {
        if entries[i].kind.IsDirty() {
          return false;
        }
        i := i + 1;
      }
      return true;
    }

    /** Context.store: appends one entry built from its arguments. */
    method Store(kind: Type, c: string, t: Option<Throwable>, message: string, params: seq<Param>)
      modifies this
      ensures entries == old(entries) + [Entry(kind, c, t, message, params)]
      ensures CleanLog(entries) <==> old(CleanLog(entries)) && kind.IsClean()
    {
      CleanLogAppend(entries, [Entry(kind, c, t, message, params)]);
      entries := entries + [Entry(kind, c, t, message, params)];
    }

    /** Context.error(c, t, message, params): an ERROR entry; the context is dirty afterwards. */
    method ErrorWith(c: string, t: Option<Throwable>, message: string, params: seq<Param>)
      modifies this
      ensures entries == old(entries) + [Entry(ERROR, c, t, message, params)]
      ensures !CleanLog(entries)
    {
      Store(ERROR, c, t, message, params);
    }

    /** Context.error(c, message, params): an ERROR entry without a throwable. */
    method Error(c: string, message: string, params: seq<Param>)
      modifies this
      ensures entries == old(entries) + [Entry(ERROR, c, None, message, params)]
      ensures !CleanLog(entries)
    {
      ErrorWith(c, None, message, params);
    }

    /**
     * Context.error(c, t): forwards to error(c, "...", t), which Java resolves to
     * the variable-arity error(c, message, params) — so the throwable ends up as
     * the single message parameter and the entry's own throwable is absent.
     */
    method ErrorThrowable(c: string, t: Throwable)
      modifies this
      ensures entries == old(entries) + [Entry(ERROR, c, None, "...", [Cause(t)])]
      ensures !CleanLog(entries)
    {
      Error(c, "...", [Cause(t)]);
    }

    /** Context.fatal(c, t, message, params): a FATAL entry; the context is dirty afterwards. */
    method FatalWith(c: string, t: Option<Throwable>, message: string, params: seq<Param>)
      modifies this
      ensures entries == old(entries) + [Entry(FATAL, c, t, message, params)]
      ensures !CleanLog(entries)
    {
      Store(FATAL, c, t, message, params);
    }

    /** Context.fatal(c, message, params): a FATAL entry without a throwable. */
    method Fatal(c: string, message: string, params: seq<Param>)
      modifies this
      ensures entries == old(entries) + [Entry(FATAL, c, None, message, params)]
      ensures !CleanLog(entries)
    {
      FatalWith(c, None, message, params);
    }

    /** Context.fatal(c, t): forwards to fatal(c, t, "..."), so the throwable is the entry's own. */
    method FatalThrowable(c: string, t: Throwable)
      modifies this
      ensures entries == old(entries) + [Entry(FATAL, c, Some(t), "...", [])]
      ensures !CleanLog(entries)
    {
      FatalWith(c, Some(t), "...", []);
    }

    /** Context.info(c, message, params): an INFO entry; cleanliness is unchanged. */
    method Info(c: string, message: string, params: seq<Param>)
      modifies this
      ensures entries == old(entries) + [Entry(INFO, c, None, message, params)]
      ensures CleanLog(entries) <==> old(CleanLog(entries))
    {
      Store(INFO, c, None, message, params);
    }
  }

  /** A context that only ever received info entries stays clean. */
  lemma {:induction false} InfoOnlyIsClean(log: seq<Entry>)
    requires forall i :: 0 <= i < |log| ==> log[i].kind == INFO
    ensures CleanLog(log)
    decreases |log|
  {
    if |log| > 0 {
      assert forall i :: 0 <= i < |log| - 1 ==> log[1..][i] == log[i + 1];
      InfoOnlyIsClean(log[1..]);
    }
  }

  /** Once dirty, a log stays dirty whatever is appended after it. */
  lemma DirtyStaysDirty(log: seq<Entry>, more: seq<Entry>)
    requires !CleanLog(log)
    ensures !CleanLog(log + more)
  {
    CleanLogAppend(log, more);
  }
}
