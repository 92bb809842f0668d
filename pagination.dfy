/** Listing with offset and limit. The database returns rows in an order of its
    own choosing; the model takes that order as a sequence of keys and claims
    nothing about it beyond "every stored key exactly once". */
module Pagination {
  import opened Usuarios

  function Min(a: int, b: int): int { if a <= b then a else b }

  function Max(a: int, b: int): int { if a <= b then b else a }

  ghost predicate Distinct(s: seq<int>) {
    forall i, j :: 0 <= i < j < |s| ==> s[i] != s[j]
  }

  /** `order` lists every stored key exactly once: a row order the database
      may use. */
  ghost predicate IsRowOrder(order: seq<int>, t: Table) {
    && Distinct(order)
    && (forall i :: 0 <= i < |order| ==> order[i] in t)
    && (forall id :: id in t ==> id in order)
  }

  /** `offset(skip).limit(limit).all()` over the rows in the given order. */
  function Page(t: Table, order: seq<int>, skip: int, limit: int): seq<UsuarioResponse>
    requires IsRowOrder(order, t)
    requires 0 <= skip && 0 <= limit
  {
    var lo := Min(skip, |order|);
    var hi := Min(skip + limit, |order|);
    seq(hi - lo, k requires 0 <= k < hi - lo => UsuarioResponse(order[lo + k], t[order[lo + k]]))
  }

  /** A sequence without repetitions has as many distinct elements as entries. */
  lemma {:induction false} DistinctCardinality(s: seq<int>)
    requires Distinct(s)
    ensures |set x | x in s| == |s|
  {
    if s != [] {
      var rest := s[1..];
      assert Distinct(rest) by {
        forall i, j | 0 <= i < j < |rest| ensures rest[i] != rest[j] {
          assert rest[i] == s[i + 1] && rest[j] == s[j + 1];
        }
      }
      DistinctCardinality(rest);
      assert s[0] !in rest by {
        forall i | 0 <= i < |rest| ensures rest[i] != s[0] {
          assert rest[i] == s[i + 1];
        }
      }
      assert (set x | x in s) == (set x | x in rest) + {s[0]} by {
        assert s == [s[0]] + rest;
      }
    }
  }

  /** A row order has exactly one entry per stored row. */
  lemma RowOrderLength(order: seq<int>, t: Table)
    requires IsRowOrder(order, t)
    ensures |order| == |t|
  {
    DistinctCardinality(order);
    var keys := set x | x in order;
    forall x ensures x in keys <==> x in t.Keys {
      if x in order {
        var i :| 0 <= i < |order| && order[i] == x;
      }
    }
    assert keys == t.Keys;
  }

  /** A page holds min(limit, rows left after skip) rows, each one a stored row
      under its own key, no row twice. */
  lemma PageWindow(t: Table, order: seq<int>, skip: int, limit: int)
    requires IsRowOrder(order, t)
    requires 0 <= skip && 0 <= limit
    ensures var rows := Page(t, order, skip, limit);
      && |rows| == Min(limit, Max(0, |t| - skip))
      && (forall r :: r in rows ==> r.id in t && t[r.id] == r.usuario)
      && (forall i, j :: 0 <= i < j < |rows| ==> rows[i].id != rows[j].id)
  {
    RowOrderLength(order, t);
  }

  /** If every page query returns the rows in the same order `order`, paging
      through with a fixed limit reaches every stored row: the row under key
      `id` is on page number p, the one that skips p * limit rows. The query
      has no ORDER BY, so the database itself does not promise a common order
      (see ReorderedPagesCanMissRow). */
  lemma PagesCoverTable(t: Table, order: seq<int>, limit: int, id: int)
    requires IsRowOrder(order, t)
    requires 1 <= limit
    requires id in t
    ensures exists p: nat :: UsuarioResponse(id, t[id]) in Page(t, order, p * limit, limit)
  {
    var i :| 0 <= i < |order| && order[i] == id;
    var p: nat := i / limit;
    var skip := p * limit;
    assert skip <= i < skip + limit;
    var rows := Page(t, order, skip, limit);
    assert rows[i - skip] == UsuarioResponse(id, t[id]);
  }

  /** Without a common order, paging can miss a row: a two-row table has the
      valid orders [1, 2] and [2, 1]; page 0 taken in the first and page 1
      taken in the second, with limit 1, both return key 1, and key 2 is on
      neither. */
  lemma ReorderedPagesCanMissRow(u1: Usuario, u2: Usuario)
    ensures var t := map[1 := u1, 2 := u2];
      && IsRowOrder([1, 2], t)
      && IsRowOrder([2, 1], t)
      && Page(t, [1, 2], 0, 1) == [UsuarioResponse(1, u1)]
      && Page(t, [2, 1], 1, 1) == [UsuarioResponse(1, u1)]
  {
  }
}
