/**
 * `getPublisher`: which registered topics a publisher serves, and the nest of
 * providers it renders around its children.
 */
module Publisher {
  import opened Wrappers
  import opened Topics

  /**
   * The element a publisher renders: the children innermost, each provider
   * wrapping what was built before it.
   */
  datatype Element =
    | Children
    | Provider(topic: string, record: Topic, inner: Element)

  /** The topics whose providers enclose the children, innermost first. */
  function Frames(e: Element): (r: seq<string>)
  {
    match e
    case Children => []
    case Provider(name, _, inner) => Frames(inner) + [name]
  }

  /** Every provider in the nest is the one registered for its topic. */
  ghost predicate RecordsMatch(e: Element, topics: map<string, Topic>) {
    match e
    case Children => true
    case Provider(name, record, inner) =>
      name in topics && topics[name] == record && RecordsMatch(inner, topics)
  }

  /** `a` is `b` with zero or more elements deleted. */
  ghost predicate IsSubsequence(a: seq<string>, b: seq<string>)
    decreases |b|
  {
    if a == [] then true
    else if b == [] then false
    else if a[0] == b[0] then IsSubsequence(a[1..], b[1..])
    else IsSubsequence(a, b[1..])
  }

  /** The registry keys some requested name matches, in registry order. */
  function Filter(keys: seq<string>, wanted: seq<string>): (r: seq<string>)
    ensures |r| <= |keys|
    ensures forall x :: x in r <==> x in keys && x in wanted
  {
    if keys == [] then []
    else (if keys[0] in wanted then [keys[0]] else []) + Filter(keys[1..], wanted)
  }

  /**
   * The topics a publisher serves: every registry key when the request is
   * omitted or empty, otherwise the registry keys that were requested.
   * Requested names that are not registered are dropped.
   */
  function Select(keys: seq<string>, requested: Option<seq<string>>): (r: seq<string>)
    ensures requested.None? || requested.value == [] ==> r == keys
    ensures requested.Some? && requested.value != [] ==>
      forall x :: x in r <==> x in keys && x in requested.value
  {
    if requested.None? || requested.value == [] then keys
    else Filter(keys, requested.value)
  }

  /**
   * The `reduce` that nests providers: each selected name, in order, has its
   * registered provider wrapped around the nest built so far. It fails with
   * the first selected name that is not registered.
   */
  function Nest(selected: seq<string>, topics: map<string, Topic>): (r: Result<Element, PubSubError>)
    ensures r.Success? <==> forall n :: n in selected ==> n in topics
    ensures r.Success? ==> Frames(r.value) == selected && RecordsMatch(r.value, topics)
    decreases |selected|
  {
    if selected == [] then Success(Children)
    else
      var name := selected[|selected| - 1];
      var prefix := selected[..|selected| - 1];
      assert selected == prefix + [name];
      match Nest(prefix, topics)
      case Failure(e) => Failure(e)
      case Success(tally) =>
        if name in topics then Success(Provider(name, topics[name], tally))
        else Failure(TopicNotAdded(name))
  }

  /** The error `Nest` throws names the first unregistered name in order. */
  lemma {:induction false} NestReportsFirstMissing(selected: seq<string>, topics: map<string, Topic>, i: nat)
    requires i < |selected| && selected[i] !in topics
    requires forall j :: 0 <= j < i ==> selected[j] in topics
    ensures Nest(selected, topics) == Failure(TopicNotAdded(selected[i]))
    decreases |selected|
  {
    var prefix := selected[..|selected| - 1];
    if i < |selected| - 1 {
      NestReportsFirstMissing(prefix, topics, i);
    } else {
      assert forall n :: n in prefix ==> n in topics by {
        forall n | n in prefix ensures n in topics {
          var j :| 0 <= j < |prefix| && prefix[j] == n;
          assert selected[j] == n;
        }
      }
    }
  }

  /** Filtering keeps the registry's order. */
  lemma {:induction false} FilterIsSubsequence(keys: seq<string>, wanted: seq<string>)
    ensures IsSubsequence(Filter(keys, wanted), keys)
    decreases |keys|
  {
    if keys != [] {
      FilterIsSubsequence(keys[1..], wanted);
      var rest := Filter(keys[1..], wanted);
      if keys[0] in wanted {
        assert Filter(keys, wanted) == [keys[0]] + rest;
        assert ([keys[0]] + rest)[1..] == rest;
      } else {
        assert Filter(keys, wanted) == rest;
        SubsequenceOfTail(rest, keys);
      }
    }
  }

  lemma {:induction false} SubsequenceOfTail(a: seq<string>, b: seq<string>)
    requires b != [] && IsSubsequence(a, b[1..])
    ensures IsSubsequence(a, b)
    decreases |b|
  {
    if a != [] && a[0] == b[0] {
      // Match a[0] against b[0] instead of its later occurrence in b[1..].
      SubsequenceDropHead(a, b[1..]);
      SubsequenceOfTail(a[1..], b[1..]);
    }
  }

  /** A subsequence without its head is a subsequence of any tail of a supersequence. */
  lemma {:induction false} SubsequenceDropHead(a: seq<string>, b: seq<string>)
    requires a != [] && IsSubsequence(a, b)
    ensures IsSubsequence(a[1..], b[1..])
    decreases |b|
  {
    if a[0] != b[0] {
      SubsequenceDropHead(a, b[1..]);
      SubsequenceOfTail(a[1..], b[1..]);
    }
  }

  lemma {:induction false} SubsequenceElements(a: seq<string>, b: seq<string>)
    requires IsSubsequence(a, b)
    ensures forall x :: x in a ==> x in b
    decreases |b|
  {
    if a != [] {
      if a[0] == b[0] {
        SubsequenceElements(a[1..], b[1..]);
        assert forall x :: x in a ==> x == a[0] || x in a[1..];
      } else {
        SubsequenceElements(a, b[1..]);
      }
    }
  }

  lemma {:induction false} SubsequenceNoDuplicates(a: seq<string>, b: seq<string>)
    requires IsSubsequence(a, b) && NoDuplicates(b)
    ensures NoDuplicates(a)
    decreases |b|
  {
    if a != [] {
      assert NoDuplicates(b[1..]) by {
        forall i, j | 0 <= i < j < |b[1..]| ensures b[1..][i] != b[1..][j] {
          assert b[1..][i] == b[i + 1] && b[1..][j] == b[j + 1];
        }
      }
      if a[0] == b[0] {
        SubsequenceNoDuplicates(a[1..], b[1..]);
        SubsequenceElements(a[1..], b[1..]);
        assert b[0] !in b[1..];
        forall i, j | 0 <= i < j < |a| ensures a[i] != a[j] {
          if i == 0 {
            assert a[j] == a[1..][j - 1];
          } else {
            assert a[i] == a[1..][i - 1] && a[j] == a[1..][j - 1];
          }
        }
      } else {
        SubsequenceNoDuplicates(a, b[1..]);
      }
    }
  }

  /**
   * The selection is a subsequence of the registry keys (so it keeps their
   * order), and it names each topic at most once.
   */
  lemma SelectIsOrderedSubset(keys: seq<string>, requested: Option<seq<string>>)
    requires NoDuplicates(keys)
    ensures IsSubsequence(Select(keys, requested), keys)
    ensures NoDuplicates(Select(keys, requested))
  {
    if requested.None? || requested.value == [] {
      SubsequenceReflexive(keys);
    } else {
      FilterIsSubsequence(keys, requested.value);
    }
    SubsequenceNoDuplicates(Select(keys, requested), keys);
  }

  lemma {:induction false} SubsequenceReflexive(s: seq<string>)
    ensures IsSubsequence(s, s)
    decreases |s|
  {
    if s != [] {
      SubsequenceReflexive(s[1..]);
    }
  }

  /**
   * Composing a publisher over a well-formed registry never throws: every
   * selected name is a registry key. The nest holds each selected topic's
   * registered provider once, the children innermost and the last selected
   * topic outermost.
   */
  lemma ComposeNeverFails(keys: seq<string>, topics: map<string, Topic>, nextContext: nat,
                          requested: Option<seq<string>>)
    requires WellFormed(keys, topics, nextContext)
    ensures Nest(Select(keys, requested), topics).Success?
    ensures Frames(Nest(Select(keys, requested), topics).value) == Select(keys, requested)
    ensures NoDuplicates(Frames(Nest(Select(keys, requested), topics).value))
    ensures RecordsMatch(Nest(Select(keys, requested), topics).value, topics)
  {
    SelectIsOrderedSubset(keys, requested);
  }
}
