// Recursion through oneofs: a oneof variant whose message type can contain
// the owning message again, through message-typed oneof members, would make
// the generated enum infinitely large, so its value is boxed. `NeedBoxed` is
// the generator's worklist search; it is proved to answer exactly whether the
// owner is reachable in the graph of oneof members.
module OneofBoxing {
  import opened Wrappers
  import opened Descriptor

  /** The fields that belong to some oneof, in declaration order. */
  function OneofMembers(fs: seq<FieldDescriptor>): (r: seq<FieldDescriptor>)
    ensures forall f :: f in r <==> f in fs && f.oneof.Some?
    ensures |r| <= |fs|
  {
    if fs == [] then []
    else OneofMembers(fs[..|fs| - 1]) + (if fs[|fs| - 1].oneof.Some? then [fs[|fs| - 1]] else [])
  }

  /** The message types the message-typed fields among `fs` refer to. */
  function Targets(fs: seq<FieldDescriptor>): (r: set<string>)
    ensures forall f :: f in fs && f.fieldType == TypeMessage ==> f.typeName in r
  {
    if fs == [] then {}
    else Targets(fs[..|fs| - 1]) + (if fs[|fs| - 1].fieldType == TypeMessage then {fs[|fs| - 1].typeName} else {})
  }

  lemma {:induction false} TargetsAppend(a: seq<FieldDescriptor>, b: seq<FieldDescriptor>)
    ensures Targets(a + b) == Targets(a) + Targets(b)
  {
    if b != [] {
      var init := b[..|b| - 1];
      assert (a + b)[..|a + b| - 1] == a + init;
      TargetsAppend(a, init);
    } else {
      assert a + b == a;
    }
  }

  /** The message types that message `a`'s oneof members refer to. */
  function Succ(scope: Scope, a: string): set<string>
    requires a in scope
  {
    Targets(OneofMembers(scope[a].fields))
  }

  /** Message `a` has a oneof member of message type `b`. */
  ghost predicate Edge(scope: Scope, a: string, b: string)
  {
    a in scope && b in Succ(scope, a)
  }

  ghost predicate IsPath(scope: Scope, p: seq<string>)
  {
    |p| > 0 && forall i :: 0 <= i < |p| - 1 ==> Edge(scope, p[i], p[i + 1])
  }

  /** A chain of oneof members leads from message `a` to message `b`
      (every message reaches itself). */
  ghost predicate Reachable(scope: Scope, a: string, b: string)
  {
    exists p :: IsPath(scope, p) && p[0] == a && p[|p| - 1] == b
  }

  /** Every message type a oneof member refers to is in the scope, so that
      `find_message` finds it. */
  predicate Resolves(scope: Scope)
  {
    forall a :: a in scope ==> Succ(scope, a) <= scope.Keys
  }

  lemma ReachSelf(scope: Scope, a: string)
    ensures Reachable(scope, a, a)
  {
    assert IsPath(scope, [a]);
  }

  lemma ReachStep(scope: Scope, a: string, v: string, w: string)
    requires Reachable(scope, a, v) && Edge(scope, v, w)
    ensures Reachable(scope, a, w)
  {
    var p :| IsPath(scope, p) && p[0] == a && p[|p| - 1] == v;
    var q := p + [w];
    forall i | 0 <= i < |q| - 1
      ensures Edge(scope, q[i], q[i + 1])
    {
      if i < |p| - 1 {
        assert q[i] == p[i] && q[i + 1] == p[i + 1];
      }
    }
    assert IsPath(scope, q);
  }

  /** Everything one step from a reachable message is reachable. */
  lemma ReachSucc(scope: Scope, a: string, v: string)
    requires v in scope && Reachable(scope, a, v)
    ensures forall w :: w in Succ(scope, v) ==> Reachable(scope, a, w)
  {
    forall w | w in Succ(scope, v)
      ensures Reachable(scope, a, w)
    {
      ReachStep(scope, a, v, w);
    }
  }

  /** A set that holds `a`, is closed under edges and leaves out `b` shows
      that `b` cannot be reached from `a`. */
  lemma ClosedSetBlocks(scope: Scope, closed: set<string>, a: string, b: string)
    requires a in closed && b !in closed && closed <= scope.Keys
    requires forall v :: v in closed ==> Succ(scope, v) <= closed
    ensures !Reachable(scope, a, b)
  {
    if Reachable(scope, a, b) {
      var p :| IsPath(scope, p) && p[0] == a && p[|p| - 1] == b;
      var k := 0;
      while k < |p| - 1
        invariant 0 <= k < |p| && p[k] in closed
      {
        assert Edge(scope, p[k], p[k + 1]);
        k := k + 1;
      }
    }
  }

  /** Adding a new element of a finite set to the visited part leaves fewer
      unvisited. */
  lemma FewerUnvisited(keys: set<string>, visited: set<string>, visited': set<string>, x: string)
    requires x in keys && x !in visited && visited' == visited + {x}
    ensures |keys - visited'| < |keys - visited|
  {
    assert keys - visited == (keys - visited') + {x};
  }

  lemma SplitLast(s: seq<FieldDescriptor>)
    requires s != []
    ensures s == s[..|s| - 1] + [s[|s| - 1]]
  {
  }

  lemma TargetsOne(f: FieldDescriptor)
    ensures Targets([f]) == if f.fieldType == TypeMessage then {f.typeName} else {}
  {
    assert [f][..0] == [];
  }

  /** The invariant of the search: `visited` holds the messages already
      expanded and `fields` the worklist. Everything either holds is reachable
      from the start; what a visited message leads to is visited or waiting;
      the start (`roots`, empty when the variant is not a message) is one of
      them; the owner has not been met. */
  ghost predicate Searching(scope: Scope, start: string, owner: string, roots: set<string>,
                            visited: set<string>, fields: seq<FieldDescriptor>)
  {
    && visited <= scope.Keys && Targets(fields) <= scope.Keys
    && owner !in visited
    && roots <= visited + Targets(fields)
    && (roots == {} ==> visited + Targets(fields) == {})
    && (forall v :: v in visited + Targets(fields) ==> Reachable(scope, start, v))
    && (forall v :: v in visited ==> Succ(scope, v) <= visited + Targets(fields))
  }

  /** Popping a field that is not a message, or a message already visited,
      keeps the invariant. */
  lemma PopSkipped(scope: Scope, start: string, owner: string, roots: set<string>,
                   visited: set<string>, fields: seq<FieldDescriptor>, f: FieldDescriptor)
    requires Searching(scope, start, owner, roots, visited, fields + [f])
    requires f.fieldType == TypeMessage ==> f.typeName in visited
    ensures Searching(scope, start, owner, roots, visited, fields)
  {
    TargetsAppend(fields, [f]);
    TargetsOne(f);
  }

  /** Popping a message not yet visited, other than the owner, and pushing its
      oneof members keeps the invariant. */
  lemma PopExpanded(scope: Scope, start: string, owner: string, roots: set<string>,
                    visited: set<string>, fields: seq<FieldDescriptor>, f: FieldDescriptor)
    requires Resolves(scope)
    requires Searching(scope, start, owner, roots, visited, fields + [f])
    requires f.fieldType == TypeMessage && f.typeName !in visited && f.typeName != owner
    ensures f.typeName in scope
    ensures Searching(scope, start, owner, roots, visited + {f.typeName},
                      fields + OneofMembers(scope[f.typeName].fields))
  {
    var name := f.typeName;
    TargetsAppend(fields, [f]);
    TargetsOne(f);
    var members := OneofMembers(scope[name].fields);
    TargetsAppend(fields, members);
    ReachSucc(scope, start, name);
  }

  /** Meeting the owner in the worklist shows it is reachable. */
  lemma PopOwner(scope: Scope, start: string, owner: string, roots: set<string>,
                 visited: set<string>, fields: seq<FieldDescriptor>, f: FieldDescriptor)
    requires Searching(scope, start, owner, roots, visited, fields + [f])
    requires f.fieldType == TypeMessage && f.typeName == owner
    ensures Reachable(scope, start, owner)
  {
  }

  /** An empty worklist leaves the visited set closed, so the owner cannot be
      reached. */
  lemma Exhausted(scope: Scope, start: string, owner: string, roots: set<string>, visited: set<string>)
    requires Searching(scope, start, owner, roots, visited, [])
    requires start in roots
    ensures !Reachable(scope, start, owner)
  {
    ClosedSetBlocks(scope, visited, start, owner);
  }

  /** The search starts with nothing visited and the variant's field as the
      whole worklist. */
  lemma SearchStarts(scope: Scope, owner: string, field: FieldDescriptor)
    requires field.fieldType == TypeMessage ==> field.typeName in scope
    ensures Searching(scope, field.typeName, owner, Targets([field]), {}, [field])
    ensures Targets([field]) == if field.fieldType == TypeMessage then {field.typeName} else {}
  {
    TargetsOne(field);
    if field.fieldType == TypeMessage {
      ReachSelf(scope, field.typeName);
    }
  }

  /** `OneofField::need_boxed`: a depth-first worklist over fields, starting
      with the variant's own field. Message-typed fields are followed once per
      message type; meeting the owner answers true, otherwise the oneof
      members of the message are pushed. Every message is expanded at most
      once, so the search ends on cyclic type graphs. */
  method NeedBoxed(field: FieldDescriptor, scope: Scope, owner: string) returns (b: bool)
    requires Resolves(scope)
    requires field.fieldType == TypeMessage ==> field.typeName in scope
    ensures b <==> field.fieldType == TypeMessage && Reachable(scope, field.typeName, owner)
  {
    var visited: set<string> := {};
    var fields := [field];
    ghost var start := field.typeName;
    ghost var roots := Targets([field]);
    SearchStarts(scope, owner, field);
    while fields != []
      invariant Searching(scope, start, owner, roots, visited, fields)
      decreases |scope.Keys - visited|, |fields|
    {
      SplitLast(fields);
      var f := fields[|fields| - 1];
      fields := fields[..|fields| - 1];
      if f.fieldType == TypeMessage && f.typeName !in visited {
        var name := f.typeName;
        if name == owner {
          PopOwner(scope, start, owner, roots, visited, fields, f);
          return true;
        }
        PopExpanded(scope, start, owner, roots, visited, fields, f);
        ghost var seen := visited;
        visited := visited + {name};
        FewerUnvisited(scope.Keys, seen, visited, name);
        fields := fields + OneofMembers(scope[name].fields);
      } else {
        PopSkipped(scope, start, owner, roots, visited, fields, f);
      }
    }
    if field.fieldType == TypeMessage {
      Exhausted(scope, start, owner, roots, visited);
    }
    return false;
  }
}
