/** The created/deleted resource ledger a task context keeps for each kind of
    resource (regions, fields, field spaces, index spaces, index partitions).
    Deleting a handle the context created removes it and tells the caller to
    finalise (destroy) it; deleting one it did not create records it as
    deleted so the parent context can finalise it later. */
module Ledger {

  /** The created and deleted sets for one kind of resource. */
  datatype Ledger<T> = Ledger(created: set<T>, deleted: set<T>)

  /** Result of one deletion: the new ledger and whether the caller must
      finalise the handle itself. */
  datatype Deletion<T> = Deletion(ledger: Ledger<T>, finalize: bool)

  /** Result of a batch deletion: the new ledger and the handles to finalise. */
  datatype BatchDeletion<T> = BatchDeletion(ledger: Ledger<T>, toFinalize: set<T>)

  /** Registering a creation inserts a handle that was not created before. */
  function Create<T>(l: Ledger<T>, h: T): (r: Ledger<T>)
    requires h !in l.created
    ensures h in r.created && r.created - {h} == l.created && r.deleted == l.deleted
  {
    Ledger(l.created + {h}, l.deleted)
  }

  /** Registering a deletion of one handle. */
  function Delete<T>(l: Ledger<T>, h: T): (r: Deletion<T>)
    ensures r.finalize <==> h in l.created
    ensures r.finalize ==> r.ledger.created == l.created - {h} && r.ledger.deleted == l.deleted
    ensures !r.finalize ==> r.ledger.created == l.created && r.ledger.deleted == l.deleted + {h}
  {
    if h in l.created then Deletion(Ledger(l.created - {h}, l.deleted), true)
    else Deletion(Ledger(l.created, l.deleted + {h}), false)
  }

  /** Registering the creation of every handle of a batch, none created before. */
  function CreateAll<T>(l: Ledger<T>, hs: set<T>): (r: Ledger<T>)
    requires hs !! l.created
    ensures r.created == l.created + hs && r.deleted == l.deleted
  {
    Ledger(l.created + hs, l.deleted)
  }

  /** Deleting a batch handle by handle, in any order. The handles the context
      created leave the created set and are reported for finalisation; the
      others join the deleted set. */
  method DeleteAll<T>(l: Ledger<T>, hs: set<T>) returns (r: BatchDeletion<T>)
    ensures r.ledger.created == l.created - hs
    ensures r.ledger.deleted == l.deleted + (hs - l.created)
    ensures r.toFinalize == hs * l.created
  {
    var cur := l;
    var fin: set<T> := {};
    var todo := hs;
    while todo != {}
      invariant todo <= hs
      invariant cur.created == l.created - (hs - todo)
      invariant cur.deleted == l.deleted + ((hs - todo) - l.created)
      invariant fin == (hs - todo) * l.created
      decreases todo
    {
      var h :| h in todo;
      var d := Delete(cur, h);
      if d.finalize {
        fin := fin + {h};
      }
      cur := d.ledger;
      todo := todo - {h};
    }
    r := BatchDeletion(cur, fin);
  }

  /** Creating and then deleting a handle in the same context is a net no-op:
      the handle ends up in neither set and must be finalised here. */
  lemma CreateThenDelete<T>(l: Ledger<T>, h: T)
    requires h !in l.created && h !in l.deleted
    ensures Delete(Create(l, h), h).finalize
    ensures Delete(Create(l, h), h).ledger == l
    ensures h !in Delete(Create(l, h), h).ledger.created && h !in Delete(Create(l, h), h).ledger.deleted
  {
  }

  /** Deleting a handle twice: the second deletion never finalises, so a
      handle is finalised by this context at most once. */
  lemma {:induction false} DeleteTwiceFinalizesOnce<T>(l: Ledger<T>, h: T)
    ensures !Delete(Delete(l, h).ledger, h).finalize
    ensures h in Delete(Delete(l, h).ledger, h).ledger.deleted
  {
  }

  // Field ledger: created fields are (field space, field) pairs.

  /** The created fields of one field space. */
  function FieldsOf(fields: set<(nat, nat)>, space: nat): (r: set<nat>)
    ensures forall f :: f in r <==> (space, f) in fields
  {
    set p | p in fields && p.0 == space :: p.1
  }

  /** Deleting a field space drops every created field of that space before
      the space itself is deleted as an ordinary handle. */
  function DropFieldsOfSpace(fields: set<(nat, nat)>, space: nat): (r: set<(nat, nat)>)
    ensures r <= fields
    ensures forall p :: p in r <==> p in fields && p.0 != space
    ensures FieldsOf(r, space) == {}
  {
    set p | p in fields && p.0 != space
  }

  /** Deleting the fields `fids` of one field space, each as a handle. */
  function FieldPairs(space: nat, fids: set<nat>): (r: set<(nat, nat)>)
    ensures forall p :: p in r <==> p.0 == space && p.1 in fids
  {
    set f | f in fids :: (space, f)
  }
}
