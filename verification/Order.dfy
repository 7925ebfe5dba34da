/** The byte order in which identities are sorted. */
module Order {
  import opened Options

  predicate Less(a: string, b: string) {
    b != [] && (a == [] || a[0] < b[0] || (a[0] == b[0] && Less(a[1..], b[1..])))
  }

  lemma {:induction false} LessIsTotal(a: string, b: string)
    ensures Less(a, b) || a == b || Less(b, a)
    ensures !(Less(a, b) && Less(b, a))
  {
    if a != [] && b != [] && a[0] == b[0] {
      LessIsTotal(a[1..], b[1..]);
      assert a == [a[0]] + a[1..] && b == [b[0]] + b[1..];
    }
  }

  lemma {:induction false} LessIsTransitive(a: string, b: string, c: string)
    requires Less(a, b) && Less(b, c)
    ensures Less(a, c)
  {
    if a != [] && a[0] == b[0] == c[0] {
      LessIsTransitive(a[1..], b[1..], c[1..]);
    }
  }

  /** The first of `names` in sorted order. */
  predicate IsFirst(names: set<string>, name: string) {
    name in names && forall other | other in names :: other == name || Less(name, other)
  }

  lemma FirstIsUnique(names: set<string>, a: string, b: string)
    requires IsFirst(names, a) && IsFirst(names, b)
    ensures a == b
  {
    LessIsTotal(a, b);
  }

  method First(names: set<string>) returns (first: Option<string>)
    ensures first.None? <==> names == {}
    ensures first.Some? ==> IsFirst(names, first.value)
  {
    first := None;
    var todo := names;
    while todo != {}
      invariant todo <= names && (first.None? ==> todo == names)
      invariant first.Some? ==> IsFirst(names - todo, first.value)
      decreases |todo|
    {
      var name :| name in todo;
      assert names - (todo - {name}) - {name} == names - todo;
      todo := todo - {name};
      first := Earlier(names - todo, name, first);
    }
  }

  /** One more name looked at. */
  method Earlier(seen: set<string>, name: string, first: Option<string>) returns (next: Option<string>)
    requires name in seen
    requires if first.Some? then IsFirst(seen - {name}, first.value) else seen == {name}
    ensures next.Some? && IsFirst(seen, next.value)
  {
    if first.None? {
      return Some(name);
    }
    LessIsTotal(name, first.value);
    if !Less(name, first.value) {
      return first;
    }
    forall other | other in seen
      ensures other == name || Less(name, other)
    {
      if other != name && other != first.value {
        LessIsTransitive(name, first.value, other);
      }
    }
    next := Some(name);
  }
}
