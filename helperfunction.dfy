/** The older variant of `assessEmergencyWithGroq` (server/helperfunction.js).
    Its history sentence, base64 cleaning, padding and image URI are the
    same code as in server/ai_assess.js and are the AiAssess functions;
    what differs is the result: the parsed reply is returned as it is, and
    the fallback has four fields and no location. */
module HelperFunction {
  import opened AiAssess

  const FallbackFields: map<string, Value> :=
    map["condition" := JStr("Error"), "severity" := JStr("Unknown"),
        "reasoning" := JStr("AI Service Unavailable. Please rely on manual triage."),
        "action" := JStr("Call emergency services.")]

  const Fallback: Value := JObj(FallbackFields)

  /** The function's result: whatever the reply parsed to, with no field
      defaulting (null included), or the four-field fallback. */
  function Assess(reply: Reply): (r: Value)
    ensures reply.Parsed? ==> r == reply.value
    ensures reply.Failed? ==> r.JObj? && r.fields.Keys == {"condition", "severity", "reasoning", "action"}
    ensures reply.Failed? ==> Field(r, "condition") == JStr("Error") && Field(r, "severity") == JStr("Unknown")
                              && Field(r, "location") == Undefined
  {
    match reply
    case Failed => Fallback
    case Parsed(v) => v
  }

  /** Unlike the newer variant, this one can hand back a reply with empty
      or missing fields: an empty condition stays empty. */
  lemma NoDefaulting(fields: map<string, Value>)
    requires "condition" in fields && fields["condition"] == JStr("")
    ensures Field(Assess(Parsed(JObj(fields))), "condition") == JStr("")
    ensures AiAssess.Assess(Parsed(JObj(fields))).condition == JStr("Unclear")
  {
  }
}
