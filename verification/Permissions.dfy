/** The permission catalog and the dependency fixpoint over it. */
module Permissions {
  datatype Role = Owner | Admin | Member | Viewer

  /** A catalog entry: the permissions it requires and the roles it can be given to. */
  datatype Definition<P> = Definition(requirements: seq<P>, assignableTo: set<Role>)

  type Catalog<P(==)> = map<P, Definition<P>>

  /** Everything the permission requires is in the set. */
  predicate Supported<P(==)>(c: Catalog<P>, s: set<P>, p: P) {
    p in c && forall i :: 0 <= i < |c[p].requirements| ==> c[p].requirements[i] in s
  }

  /** Known permissions only, each with its requirements. */
  predicate Closed<P(==)>(c: Catalog<P>, s: set<P>) {
    forall p :: p in s ==> Supported(c, s, p)
  }

  function Granted<P(==)>(m: map<P, bool>): set<P> {
    set p | p in m && m[p]
  }

  /** The union of all closed subsets. */
  ghost function GreatestClosed<P(!new)>(c: Catalog<P>, s: set<P>): set<P> {
    set p | p in s && exists t: set<P> :: t <= s && Closed(c, t) && p in t
  }

  /** It is itself a closed subset, and contains every other. */
  lemma GreatestClosedIsGreatest<P(!new)>(c: Catalog<P>, s: set<P>)
    ensures var g := GreatestClosed(c, s);
            && g <= s && Closed(c, g)
            && forall t: set<P> :: t <= s && Closed(c, t) ==> t <= g
  {
    var g := GreatestClosed(c, s);
    forall p | p in g ensures Supported(c, g, p) {
      var t: set<P> :| t <= s && Closed(c, t) && p in t;
      assert Supported(c, t, p) && t <= g;
    }
  }

  lemma ClosedIsOwnGreatest<P(!new)>(c: Catalog<P>, s: set<P>)
    requires Closed(c, s)
    ensures GreatestClosed(c, s) == s
  {
    GreatestClosedIsGreatest(c, s);
  }

  /** Any closed subset that holds every closed subset is the greatest one. */
  lemma GreatestClosedUnique<P(!new)>(c: Catalog<P>, s: set<P>, r: set<P>)
    requires r <= s && Closed(c, r)
    requires forall t: set<P> :: t <= s && Closed(c, t) ==> t <= r
    ensures r == GreatestClosed(c, s)
  {
    GreatestClosedIsGreatest(c, s);
  }

  /** `enforcePermissionDependencies`: sweep the map, in whatever order it is
      iterated, until a sweep changes nothing. */
  method EnforceDependencies<P(==, !new)>(c: Catalog<P>, permissions: map<P, bool>) returns (out: map<P, bool>)
    ensures out.Keys == permissions.Keys
    ensures Granted(out) == GreatestClosed(c, Granted(permissions))
    // in full: what is left was granted, is known and has what it requires, and any other
    // such set is part of it
    ensures forall p :: p in out && out[p] ==>
              && permissions[p] && p in c
              && forall i :: 0 <= i < |c[p].requirements| ==>
                   c[p].requirements[i] in out && out[c[p].requirements[i]]
    ensures forall t: set<P>, p ::
              && p in t && (forall q :: q in t ==> q in permissions && permissions[q] && q in c)
              && (forall q, i :: q in t && 0 <= i < |c[q].requirements| ==> c[q].requirements[i] in t)
              ==> p in out && out[p]
  {
    hide GreatestClosed, Supported;
    ghost var initial := Granted(permissions);
    out := permissions;
    var changed := true;
    while changed
      invariant out.Keys == permissions.Keys && Granted(out) <= initial
      invariant forall t: set<P> :: t <= initial && Closed(c, t) ==> t <= Granted(out)
      invariant !changed ==> Closed(c, Granted(out))
      decreases |Granted(out)| + if changed then 1 else 0
    {
      changed := false;
      var todo := out.Keys;
      ghost var before := Granted(out);
      while todo != {}
        invariant todo <= out.Keys == permissions.Keys && Granted(out) <= before <= initial
        invariant forall t: set<P> :: t <= initial && Closed(c, t) ==> t <= Granted(out)
        invariant if changed then |Granted(out)| < |before| else Granted(out) == before
        invariant !changed ==> forall p :: p in Granted(out) && p !in todo ==> Supported(c, Granted(out), p)
        decreases todo
      {
        var p :| p in todo;
        todo := todo - {p};
        if out[p] {
          var supported := IsSupported(c, out, p);
          if !supported {
            ghost var was := Granted(out);
            out := out[p := false];
            changed := true;
            assert Granted(out) == was - {p};
            forall t: set<P> | t <= initial && Closed(c, t) ensures t <= Granted(out) {
              Unsupported(c, t, was, p);
            }
          }
        }
      }
    }
    GreatestClosedUnique(c, initial, Granted(out));
    InFull(c, permissions, out);
  }

  /** The greatest closed subset, spelled out. */
  lemma InFull<P(!new)>(c: Catalog<P>, permissions: map<P, bool>, out: map<P, bool>)
    requires Granted(out) == GreatestClosed(c, Granted(permissions))
    ensures forall p :: p in out && out[p] ==>
              && p in permissions && permissions[p] && p in c
              && forall i :: 0 <= i < |c[p].requirements| ==>
                   c[p].requirements[i] in out && out[c[p].requirements[i]]
    ensures forall t: set<P>, p ::
              && p in t && (forall q :: q in t ==> q in permissions && permissions[q] && q in c)
              && (forall q, i :: q in t && 0 <= i < |c[q].requirements| ==> c[q].requirements[i] in t)
              ==> p in out && out[p]
  {
    GreatestClosedIsGreatest(c, Granted(permissions));
    forall p | p in out && out[p]
      ensures p in permissions && permissions[p] && p in c
              && forall i :: 0 <= i < |c[p].requirements| ==>
                   c[p].requirements[i] in out && out[c[p].requirements[i]]
    {
      assert p in Granted(out) && Supported(c, Granted(out), p) && p in Granted(permissions);
    }
    forall t: set<P>, p | p in t && (forall q :: q in t ==> q in permissions && permissions[q] && q in c)
                          && (forall q, i :: q in t && 0 <= i < |c[q].requirements| ==> c[q].requirements[i] in t)
      ensures p in out && out[p]
    {
      assert t <= Granted(permissions) && Closed(c, t) && p in Granted(out);
    }
  }

  /** No closed set inside `s` has a member that `s` does not support. */
  lemma Unsupported<P>(c: Catalog<P>, t: set<P>, s: set<P>, p: P)
    requires Closed(c, t) && t <= s && !Supported(c, s, p)
    ensures p !in t
  {
  }

  /** The inner loop over one permission's requirements; a permission missing from
      the map reads as false. */
  method IsSupported<P(==)>(c: Catalog<P>, permissions: map<P, bool>, p: P) returns (ok: bool)
    ensures ok <==> Supported(c, Granted(permissions), p)
    ensures ok <==> p in c && forall i :: 0 <= i < |c[p].requirements| ==>
                                c[p].requirements[i] in permissions && permissions[c[p].requirements[i]]
  {
    if p !in c { return false; }
    var requirements := c[p].requirements;
    for i := 0 to |requirements|
      invariant forall j :: 0 <= j < i ==> requirements[j] in Granted(permissions)
    {
      if requirements[i] !in permissions || !permissions[requirements[i]] {
        assert requirements[i] !in Granted(permissions);
        return false;
      }
    }
    ok := true;
  }
}
