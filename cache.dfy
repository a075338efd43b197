/**
 * The persistent result cache (app.py:33-41, 66-83): one row per normalised
 * query, holding the list of recipes last stored for it. `INSERT OR REPLACE`
 * makes a write replace the previous list for the same query.
 */
module Cache {
  import opened Wrappers
  import opened Recipe

  class RecipeCache {
    /** The `cache` table: query to stored recipe list. */
    var entries: map<string, seq<Recipe>>

    /** `init_db` on a database without the table. */
    constructor ()
      ensures entries == map[]
    {
      entries := map[];
    }

    /** `get_cached_recipes` (app.py:66-75): the stored list for the query,
        or `None` when there is no row. */
    method Get(query: string) returns (cached: Option<seq<Recipe>>)
      ensures query in entries <==> cached.Some?
      ensures cached.Some? ==> cached.value == entries[query]
    {
      if query in entries {
        cached := Some(entries[query]);
      } else {
        cached := None;
      }
    }

    /** `set_cached_recipes` (app.py:77-83): the row for the query now holds
        `recipes`; every other row is unchanged. */
    method Put(query: string, recipes: seq<Recipe>)
      modifies this
      ensures entries == old(entries)[query := recipes]
      ensures query in entries && entries[query] == recipes
      ensures forall q :: q != query ==> (q in entries <==> q in old(entries))
      ensures forall q :: q != query && q in entries ==> entries[q] == old(entries)[q]
    {
      entries := entries[query := recipes];
    }
  }
}
