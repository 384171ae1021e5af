/**
  Accounts in the tree: each account sits at the slot its hashed identity names.  As long as no two
  accounts share a slot, the store is a function of the account table alone, whatever order of updates
  and deletes produced it.
 */
module SmtAccounts {
  import opened Basics
  import opened Smt
  import opened SmtVerifier
  import opened SmtTree
  import opened SmtCrown
  import opened SmtStore

  type Table = map<Digest, Digest>

  /** No two of the accounts hash to the same slot. */
  ghost predicate Separate(h: Hash, accounts: set<Digest>) {
    forall a, b {:trigger AccountPath(h, a), AccountPath(h, b)} |
      a in accounts && b in accounts && AccountPath(h, a) == AccountPath(h, b) :: a == b
  }

  /** They do not exactly when their hashes do not collide: a slot spells the whole hash. */
  lemma SeparateExactly(h: Hash, accounts: set<Digest>)
    ensures Separate(h, accounts) <==> NoCollision(h, accounts)
  {
    forall a, b {:trigger AccountPath(h, a), AccountPath(h, b)} |
      a in accounts && b in accounts && AccountPath(h, a) == AccountPath(h, b) ensures h(a) == h(b)
    {
      BitsInjective(h(a), h(b));
    }
    if Separate(h, accounts) {
      forall a: Digest, b: Digest | a in accounts && b in accounts && h(a) == h(b) ensures a == b {
        assert AccountPath(h, a) == AccountPath(h, b);
      }
    }
  }

  /** Every account's slot holds its leaf, and every leaf is some account's. */
  ghost predicate Tabled(h: Hash, values: Table, leaves: Leaves) {
    && (forall a {:trigger AccountPath(h, a)} | a in values ::
          AccountPath(h, a) in leaves && leaves[AccountPath(h, a)] == LeafHash(h, a, values[a]))
    && (forall p {:trigger p in leaves} | p in leaves ::
        exists a {:trigger AccountPath(h, a)} :: a in values && AccountPath(h, a) == p)
  }

  lemma UpdateTabled(h: Hash, values: Table, leaves: Leaves, a: Digest, state: Digest)
    requires Tabled(h, values, leaves) && Separate(h, values.Keys + {a})
    ensures Tabled(h, values[a := state], leaves[AccountPath(h, a) := LeafHash(h, a, state)])
  {
    var values', leaves' := values[a := state], leaves[AccountPath(h, a) := LeafHash(h, a, state)];
    forall p {:trigger p in leaves'} | p in leaves'
      ensures exists b {:trigger AccountPath(h, b)} :: b in values' && AccountPath(h, b) == p
    {
      if p != AccountPath(h, a) {
        var b :| b in values && AccountPath(h, b) == p;
        assert b in values';
      } else {
        assert a in values';
      }
    }
  }

  lemma DeleteTabled(h: Hash, values: Table, leaves: Leaves, a: Digest)
    requires Tabled(h, values, leaves) && Separate(h, values.Keys + {a})
    ensures Tabled(h, values - {a}, leaves - {AccountPath(h, a)})
  {
    var values', leaves' := values - {a}, leaves - {AccountPath(h, a)};
    forall p {:trigger p in leaves'} | p in leaves'
      ensures exists b {:trigger AccountPath(h, b)} :: b in values' && AccountPath(h, b) == p
    {
      var b :| b in values && AccountPath(h, b) == p;
      assert b in values';
    }
  }

  /** The slot of an account that is not in the table is empty. */
  lemma AbsentSlot(h: Hash, values: Table, leaves: Leaves, a: Digest)
    requires Tabled(h, values, leaves) && Separate(h, values.Keys + {a}) && a !in values
    ensures AccountPath(h, a) !in leaves
  {
    if AccountPath(h, a) in leaves {
      assert false;
    }
  }

  lemma SameTableSameLeaves(h: Hash, values: Table, leaves: Leaves, leaves': Leaves)
    requires Tabled(h, values, leaves) && Tabled(h, values, leaves')
    ensures leaves == leaves'
  {
    forall p ensures p in leaves <==> p in leaves' {
      if p in leaves {
        var a :| a in values && AccountPath(h, a) == p;
      }
      if p in leaves' {
        var a :| a in values && AccountPath(h, a) == p;
      }
    }
    forall p | p in leaves ensures leaves[p] == leaves'[p] {
      var a :| a in values && AccountPath(h, a) == p;
    }
  }

  lemma SameRows(h: Hash, m: Leaves, rows: Rows, tops: Tops, rows': Rows, tops': Tops, n: nat)
    requires Stored(h, m, rows, tops, n) && Stored(h, m, rows', tops', n)
    ensures rows == rows'
  {
    forall q ensures q in rows <==> q in rows' {}
    forall q | q in rows ensures rows[q] == rows'[q] {}
  }

  lemma SameTops(h: Hash, m: Leaves, rows: Rows, tops: Tops, rows': Rows, tops': Tops, n: nat)
    requires Stored(h, m, rows, tops, n) && Stored(h, m, rows', tops', n)
    ensures tops == tops'
  {
    forall q ensures q in tops <==> q in tops' {}
    forall q | q in tops ensures tops[q] == tops'[q] {
      assert Alone(m.Keys, q, tops[q]) && Alone(m.Keys, q, tops'[q]);
    }
  }

  /** Two compact stores of the same table agree on every row and marker, and so on the root. */
  lemma StoreDependsOnTableOnly(h: Hash, values: Table, leaves: Leaves, leaves': Leaves,
                                rows: Rows, tops: Tops, rows': Rows, tops': Tops, n: nat)
    requires Tabled(h, values, leaves) && Tabled(h, values, leaves')
    requires Stored(h, leaves, rows, tops, n) && Stored(h, leaves', rows', tops', n)
    ensures leaves == leaves' && rows == rows' && tops == tops'
  {
    SameTableSameLeaves(h, values, leaves, leaves');
    SameRows(h, leaves, rows, tops, rows', tops', n);
    SameTops(h, leaves, rows, tops, rows', tops', n);
  }

  // ----- what verifies against the root is what the table says

  /** The proof the full tree gives for an account. */
  function TreeProof(h: Hash, leaves: Leaves, a: Digest): Proof {
    Proof(a, Bitmap(h, leaves, AccountPath(h, a), 256), Siblings(h, leaves, AccountPath(h, a), 256, 256))
  }

  /** The strings hashed when the tree's own proof of `a` is checked. */
  ghost function TreeBytes(h: Hash, values: Table, leaves: Leaves, a: Digest): set<seq<Byte>> {
    if a in values then InclusionBytes(h, TreeProof(h, leaves, a), values[a])
      else ExclusionBytes(h, TreeProof(h, leaves, a))
  }

  lemma TreeProofVerifies(h: Hash, values: Table, leaves: Leaves, a: Digest)
    requires Tabled(h, values, leaves) && Separate(h, values.Keys + {a})
    ensures a in values ==> Included(h, TreeProof(h, leaves, a), values[a], Canon(h, leaves, [], 256))
    ensures a !in values ==> Excluded(h, TreeProof(h, leaves, a), Canon(h, leaves, [], 256))
  {
    if a !in values { AbsentSlot(h, values, leaves, a); }
    ProofsAreComplete(h, leaves, AccountPath(h, a), 256);
  }

  /** An inclusion proof that verifies against the tree's root proves the state the table records. */
  lemma InclusionMatchesTable(h: Hash, values: Table, leaves: Leaves, p: Proof, state: Digest)
    requires Tabled(h, values, leaves) && Separate(h, values.Keys + {p.account})
    requires |p.present| == 256 && Included(h, p, state, Canon(h, leaves, [], 256))
    requires NoCollision(h, InclusionBytes(h, p, state) + TreeBytes(h, values, leaves, p.account))
    ensures p.account in values && values[p.account] == state
  {
    TreeProofVerifies(h, values, leaves, p.account);
    if p.account in values {
      InclusionIsUnique(h, p, TreeProof(h, leaves, p.account), state, values[p.account], Canon(h, leaves, [], 256));
    } else {
      InclusionRefutesExclusion(h, p, TreeProof(h, leaves, p.account), state, Canon(h, leaves, [], 256));
    }
  }

  /** An exclusion proof that verifies against the tree's root is for an account the table lacks. */
  lemma ExclusionMatchesTable(h: Hash, values: Table, leaves: Leaves, p: Proof)
    requires Tabled(h, values, leaves) && Separate(h, values.Keys + {p.account})
    requires |p.present| == 256 && Excluded(h, p, Canon(h, leaves, [], 256))
    requires NoCollision(h, TreeBytes(h, values, leaves, p.account) + ExclusionBytes(h, p))
    ensures p.account !in values
  {
    TreeProofVerifies(h, values, leaves, p.account);
    if p.account in values {
      InclusionRefutesExclusion(h, TreeProof(h, leaves, p.account), p, values[p.account], Canon(h, leaves, [], 256));
    }
  }
}
