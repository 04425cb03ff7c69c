/** `concatClass` of src/utils/concatClass.ts: keep the arguments that are
    strings and join them with single spaces. Callers pass conditional class
    names such as `isToday(day) && "today"`, which are `false` when off. */
module ClassNames {

  /** A JavaScript argument value, as far as `typeof c === 'string'` cares. */
  datatype ClassArg = Str(s: string) | Bool(b: bool) | Num(n: int) | Null | Undefined

  /** `classes.filter(c => typeof c === 'string')`. */
  function StringArgs(args: seq<ClassArg>): (r: seq<string>)
    ensures |r| <= |args|
    ensures forall i :: 0 <= i < |r| ==> Str(r[i]) in args
    ensures forall i :: 0 <= i < |args| && args[i].Str? ==> args[i].s in r
  {
    if args == [] then []
    else
      var rest := StringArgs(args[1..]);
      assert forall i :: 0 <= i < |rest| ==> Str(rest[i]) in args[1..];
      (if args[0].Str? then [args[0].s] else []) + rest
  }

  /** `Array.prototype.join(' ')`. */
  function Join(xs: seq<string>): (r: string)
    ensures xs == [] ==> r == ""
    ensures |xs| > 0 ==> |r| == SumLengths(xs) + |xs| - 1
  {
    if xs == [] then ""
    else if |xs| == 1 then xs[0]
    else xs[0] + " " + Join(xs[1..])
  }

  function SumLengths(xs: seq<string>): (n: nat) {
    if xs == [] then 0 else |xs[0]| + SumLengths(xs[1..])
  }

  /** `concatClass(...classes)`: the string arguments, in order, separated by
      single spaces. */
  function ConcatClass(args: seq<ClassArg>): (r: string)
    ensures StringArgs(args) == [] ==> r == ""
    ensures StringArgs(args) != [] ==>
      |r| == SumLengths(StringArgs(args)) + |StringArgs(args)| - 1
    ensures |StringArgs(args)| == 1 ==> r == StringArgs(args)[0]
  {
    Join(StringArgs(args))
  }

  /** `String.prototype.split(' ')`: the pieces between single spaces; always
      at least one piece, "" for the empty string. */
  function Split(s: string): (r: seq<string>)
    ensures |r| > 0
  {
    if s == [] then [""]
    else if s[0] == ' ' then [""] + Split(s[1..])
    else
      var rest := Split(s[1..]);
      [[s[0]] + rest[0]] + rest[1..]
  }

  predicate NoSpace(x: string) {
    forall i :: 0 <= i < |x| ==> x[i] != ' '
  }

  lemma {:induction false} SplitNoSpace(a: string)
    requires NoSpace(a)
    ensures Split(a) == [a]
  {
    if a != [] {
      SplitNoSpace(a[1..]);
      assert [a[0]] + a[1..] == a;
    }
  }

  lemma {:induction false} SplitAtSpace(a: string, b: string)
    requires NoSpace(a)
    ensures Split(a + " " + b) == [a] + Split(b)
  {
    if a == [] {
      assert a + " " + b == [' '] + b;
      assert (a + " " + b)[1..] == b;
    } else {
      var s := a + " " + b;
      assert s[0] == a[0];
      assert s[1..] == a[1..] + " " + b;
      SplitAtSpace(a[1..], b);
      assert [a[0]] + a[1..] == a;
    }
  }

  /** Joining and splitting again recovers the class names, as long as there is
      at least one and none contains a space. */
  lemma {:induction false} SplitJoin(xs: seq<string>)
    requires |xs| > 0
    requires forall i :: 0 <= i < |xs| ==> NoSpace(xs[i])
    ensures Split(Join(xs)) == xs
  {
    if |xs| == 1 {
      SplitNoSpace(xs[0]);
    } else {
      SplitAtSpace(xs[0], Join(xs[1..]));
      SplitJoin(xs[1..]);
      assert xs == [xs[0]] + xs[1..];
    }
  }

  /** The string arguments keep their order: filtering a concatenation is the
      concatenation of the filtered parts. */
  lemma {:induction false} StringArgsAppend(a: seq<ClassArg>, b: seq<ClassArg>)
    ensures StringArgs(a + b) == StringArgs(a) + StringArgs(b)
  {
    if a == [] {
      assert a + b == b;
    } else {
      assert (a + b)[0] == a[0];
      assert (a + b)[1..] == a[1..] + b;
      StringArgsAppend(a[1..], b);
    }
  }

  /** The class string lists the string arguments, in order, separated by
      single spaces: splitting it gives them back. */
  lemma ConcatClassRoundTrip(args: seq<ClassArg>)
    requires exists i :: 0 <= i < |args| && args[i].Str?
    requires forall i :: 0 <= i < |args| && args[i].Str? ==> NoSpace(args[i].s)
    ensures Split(ConcatClass(args)) == StringArgs(args)
  {
    var xs := StringArgs(args);
    var i :| 0 <= i < |args| && args[i].Str?;
    assert args[i].s in xs;
    StringArgsNoSpace(args);
    SplitJoin(xs);
  }

  lemma {:induction false} StringArgsNoSpace(args: seq<ClassArg>)
    requires forall i :: 0 <= i < |args| && args[i].Str? ==> NoSpace(args[i].s)
    ensures forall j :: 0 <= j < |StringArgs(args)| ==> NoSpace(StringArgs(args)[j])
  {
    if args != [] {
      StringArgsNoSpace(args[1..]);
    }
  }

  /** With no string argument the class string is empty. */
  lemma NoStringsGiveEmpty(args: seq<ClassArg>)
    requires forall i :: 0 <= i < |args| ==> !args[i].Str?
    ensures ConcatClass(args) == ""
  {
    NoStringArgs(args);
  }

  lemma {:induction false} NoStringArgs(args: seq<ClassArg>)
    requires forall i :: 0 <= i < |args| ==> !args[i].Str?
    ensures StringArgs(args) == []
  {
    if args != [] {
      NoStringArgs(args[1..]);
    }
  }

  /** A single string is returned as is: no separator is added around it. */
  lemma SingleStringUnchanged(args: seq<ClassArg>, c: string)
    requires StringArgs(args) == [c]
    ensures ConcatClass(args) == c
  {
  }

  /** Empty strings are strings, so they are kept and leave two spaces in a row. */
  lemma EmptyStringKept(a: string, b: string)
    ensures ConcatClass([Str(a), Str(""), Bool(false), Str(b)]) == a + "  " + b
  {
    KeepsEmptyString(a, b);
    JoinEmptyMiddle(a, b);
  }

  lemma KeepsEmptyString(a: string, b: string)
    ensures StringArgs([Str(a), Str(""), Bool(false), Str(b)]) == [a, "", b]
  {
    var args := [Str(a), Str(""), Bool(false), Str(b)];
    assert args == [Str(a)] + [Str("")] + [Bool(false)] + [Str(b)];
    StringArgsAppend([Str(a)] + [Str("")] + [Bool(false)], [Str(b)]);
    StringArgsAppend([Str(a)] + [Str("")], [Bool(false)]);
    StringArgsAppend([Str(a)], [Str("")]);
  }

  lemma JoinEmptyMiddle(a: string, b: string)
    ensures Join([a, "", b]) == a + "  " + b
  {
    var xs := [a, "", b];
    assert xs[1..] == ["", b] && xs[1..][1..] == [b];
    assert Join(["", b]) == " " + b;
    assert a + " " + (" " + b) == a + "  " + b;
  }
}
