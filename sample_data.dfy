/** The tasks MemStorage of server/storage.ts starts with, and the shape of
    their dependency graph. */
module SampleData {
  import opened Schema
  import Graph

  const Title1 := "Implement AES-256 encryption for local storage"
  const Notes1 := "Use Web Crypto API for client-side encryption"
  const Title2 := "Design dependency graph visualization"
  const Notes2 := "Interactive graph with cycle detection"
  const Title3 := "Write unit tests for scheduler algorithm"
  const Notes3 := "Cover greedy and knapsack variants"
  const Title4 := "Implement greedy scheduler"
  const Notes4 := "Sort by value/duration ratio"

  const SampleTask1 := Task("1", Title1, Some(Notes1), Some(1761782400000), 120, 4, 90, [], false, 1761264000000)
  const SampleTask2 := Task("2", Title2, Some(Notes2), Some(1761609600000), 90, 3, 75, [], false, 1761264000000)
  const SampleTask3 := Task("3", Title3, Some(Notes3), None, 60, 2, 85, ["4"], false, 1761177600000)
  const SampleTask4 := Task("4", Title4, Some(Notes4), Some(1761436800000), 45, 3, 95, [], true, 1761091200000)

  /** The sample tasks, dated at midnight UTC (milliseconds since the epoch). */
  const SampleTasks := [SampleTask1, SampleTask2, SampleTask3, SampleTask4]

  /** Four valid tasks with ids "1" to "4"; task 3 depends on task 4,
      which is the only one completed. */
  lemma SampleShape()
    ensures |SampleTasks| == 4 && AllValid(SampleTasks)
    ensures forall i :: 0 <= i < 4 ==> SampleTasks[i].id == ["1", "2", "3", "4"][i]
    ensures Graph.Edge(SampleTasks, "4", "3")
    ensures forall i :: 0 <= i < 4 ==> (SampleTasks[i].completed <==> i == 3)
  {
    assert SampleTasks[2].id == "3" && "4" in SampleTasks[2].dependsOn;
  }

  lemma SampleIdsUnique()
    ensures UniqueIds(SampleTasks)
  {
  }

  /** The only dependency among the sample tasks is 4 -> 3. */
  lemma SampleEdge(u: string, v: string)
    requires Graph.Edge(SampleTasks, u, v)
    ensures u == "4" && v == "3"
  {
    var i :| 0 <= i < |SampleTasks| && SampleTasks[i].id == v && u in SampleTasks[i].dependsOn;
    assert i == 2;
  }

  /** The sample dependency graph has no cycle. */
  lemma SampleAcyclic()
    ensures !Graph.Cyclic(SampleTasks)
  {
    forall p ensures !Graph.IsCycle(SampleTasks, p) {
      if |p| >= 2 && Graph.IsPath(SampleTasks, p) {
        SampleEdge(p[0], p[1]);
        SampleEdge(p[|p| - 2], p[|p| - 1]);
        assert p[0] != p[|p| - 1];
      }
    }
  }
}
