/** `agentsInsertSchema`: the payload `create` accepts for a new agent. */
module AgentSchema {
  import opened Common

  /** The fields of an agent the caller supplies. */
  datatype AgentInsert = AgentInsert(name: string, instructions: string)

  const NAME_REQUIRED: Issue := Issue("name", TooSmall, Some("Name Agent is required"))
  const INSTRUCTIONS_REQUIRED: Issue := Issue("instructions", TooSmall, Some("Instructions Agent is required"))

  /** Parses a payload. Only the lengths are checked (nothing is trimmed), and
      like zod every failing field is reported, in the schema's field order. */
  function ValidateInsert(input: AgentInsert): (r: Result<AgentInsert>)
    ensures r.Ok? <==> |input.name| >= 1 && |input.instructions| >= 1
    ensures r.Ok? ==> r.value == input
    ensures r.Err? ==> r.error.BadRequest? && 1 <= |r.error.issues| <= 2
    ensures r.Err? ==> (NAME_REQUIRED in r.error.issues <==> input.name == "")
    ensures r.Err? ==> (INSTRUCTIONS_REQUIRED in r.error.issues <==> input.instructions == "")
  {
    var issues := (if |input.name| < 1 then [NAME_REQUIRED] else [])
                + (if |input.instructions| < 1 then [INSTRUCTIONS_REQUIRED] else []);
    if issues == [] then Ok(input) else Err(BadRequest(issues))
  }
}
