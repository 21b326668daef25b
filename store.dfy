/**
 * `store_in_mongo(data)`: every script ends with the same guarded full
 * replace of its collection. An empty batch is reported and ignored;
 * otherwise `delete_many({})` empties the collection and
 * `insert_many(data)` fills it with the new batch.
 */
module Store {

  /** The documents the collection holds after one store of `data` over `before`. */
  function AfterStore<T>(before: seq<T>, data: seq<T>): (after: seq<T>)
    ensures after == [] <==> before == [] && data == []
    ensures after == before || after == data
    ensures data == [] ==> after == before
    ensures data != [] ==> after == data
  {
    if data == [] then before else data
  }

  /** Storing the same batch twice leaves what storing it once left. */
  lemma AfterStoreIdempotent<T>(before: seq<T>, data: seq<T>)
    ensures AfterStore(AfterStore(before, data), data) == AfterStore(before, data)
  {
  }

  /** After a non-empty store, nothing of the previous contents decides the result. */
  lemma AfterStoreForgetsOld<T>(before1: seq<T>, before2: seq<T>, data: seq<T>)
    requires data != []
    ensures AfterStore(before1, data) == AfterStore(before2, data)
  {
  }

  /** One MongoDB collection, as the ordered sequence of its documents. */
  class Collection<T> {
    var documents: seq<T>

    constructor (documents: seq<T>)
      ensures this.documents == documents
    {
      this.documents := documents;
    }

    /** `collection.delete_many({})`: the empty filter matches every document. */
    method DeleteMany()
      modifies this
      ensures documents == []
    {
      documents := [];
    }

    /** `collection.insert_many(data)`; the driver refuses an empty batch. */
    method InsertMany(data: seq<T>)
      requires data != []
      modifies this
      ensures documents == old(documents) + data
    {
      documents := documents + data;
    }

    /**
     * `store_in_mongo(data)`: a no-op on an empty batch, otherwise the
     * collection ends up holding exactly `data`, every old document gone.
     */
    method StoreInMongo(data: seq<T>)
      modifies this
      ensures data == [] ==> documents == old(documents)
      ensures data != [] ==> documents == data
      ensures documents == AfterStore(old(documents), data)
    {
      if data == [] {
        return;
      }
      DeleteMany();
      InsertMany(data);
    }
  }
}
