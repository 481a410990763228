/**
 * The frozen configuration the core reads: the candidate roster in its configured
 * order and the Discord server id that gates membership.
 * Only the fields the core uses are kept (id, name, colour).
 */
module Config {
  import opened Wrappers

  datatype Candidate = Candidate(id: string, name: string, color: string)

  /** The six configured candidates, in configuration order. */
  const Candidates: seq<Candidate> := [
    Candidate("horsy", "Horsy", "#E74C3C"),
    Candidate("hellnest", "Hellnest", "#8E44AD"),
    Candidate("star", "Star", "#F39C12"),
    Candidate("deku", "Deku", "#27AE60"),
    Candidate("nig", "Nig", "#3498DB"),
    Candidate("sweeve", "Sweeve", "#1ABC9C")
  ]

  /** The server id placeholder shipped with the configuration. */
  const PLACEHOLDER_SERVER_ID: string := "YOUR_DISCORD_SERVER_ID"

  /** The configured server id (the placeholder, as shipped). */
  const SERVER_ID: string := PLACEHOLDER_SERVER_ID

  /** The ids of all configured candidates. */
  function CandidateIds(): set<string> {
    set c | c in Candidates :: c.id
  }

  /** `Array.prototype.find` over a candidate list: the first candidate with the given id. */
  function FindIn(cs: seq<Candidate>, id: string): (r: Option<Candidate>)
    ensures r.None? <==> forall i :: 0 <= i < |cs| ==> cs[i].id != id
    ensures r.Some? ==> exists k :: 0 <= k < |cs| && cs[k] == r.value && r.value.id == id
                          && forall j :: 0 <= j < k ==> cs[j].id != id
  {
    if cs == [] then None
    else if cs[0].id == id then Some(cs[0])
    else
      var r := FindIn(cs[1..], id);
      assert r.Some? ==> exists k :: 0 < k < |cs| && cs[k] == r.value && r.value.id == id
                                     && forall j :: 0 <= j < k ==> cs[j].id != id by {
        if r.Some? {
          var k' :| 0 <= k' < |cs[1..]| && cs[1..][k'] == r.value && r.value.id == id
                    && forall j :: 0 <= j < k' ==> cs[1..][j].id != id;
          assert forall j :: 0 <= j < k' + 1 ==> cs[j].id != id by {
            forall j | 0 <= j < k' + 1 ensures cs[j].id != id {
              if j > 0 { assert cs[j] == cs[1..][j - 1]; }
            }
          }
        }
      }
      r
  }

  /** The configured candidate with the given id, if there is one. */
  function FindCandidate(id: string): (r: Option<Candidate>)
    ensures r.Some? <==> id in CandidateIds()
    ensures r.Some? ==> r.value in Candidates && r.value.id == id
  {
    FindIn(Candidates, id)
  }

  /** The position of an id in a candidate list (|cs| when absent). */
  function IndexIn(cs: seq<Candidate>, id: string): (k: nat)
    ensures k <= |cs|
    ensures k < |cs| ==> cs[k].id == id
    ensures forall j :: 0 <= j < k ==> cs[j].id != id
  {
    if cs == [] then 0
    else if cs[0].id == id then 0
    else 1 + IndexIn(cs[1..], id)
  }

  /** The configuration position of a candidate id; ties in the results are broken by it. */
  function ConfigIndex(id: string): nat {
    IndexIn(Candidates, id)
  }

  /** No two configured candidates share an id. */
  lemma CandidateIdsDistinct()
    ensures forall i, j :: 0 <= i < j < |Candidates| ==> Candidates[i].id != Candidates[j].id
  {
  }

  /** Each configured candidate sits at its own configuration position. */
  lemma ConfigIndexOfCandidate(i: nat)
    requires i < |Candidates|
    ensures ConfigIndex(Candidates[i].id) == i
  {
    CandidateIdsDistinct();
  }
}
