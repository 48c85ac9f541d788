/** The eight activity codes of a balance and the three critical ones.

    C Conferencia, CP Clase Práctica, S Seminario, PL Práctica de
    Laboratorio, TE Tarea Extraclase, T Taller, PP Prueba Parcial,
    EC Examen Comprobatorio. The critical codes are painted red in the
    export because a week may not hold three or more of them. */
module Activity {
  import opened Wrappers

  datatype ActivityType = C | CP | S | PL | TE | T | PP | EC

  /** The code a cell stores for an activity. */
  function Code(a: ActivityType): string {
    match a
    case C => "C"
    case CP => "CP"
    case S => "S"
    case PL => "PL"
    case TE => "TE"
    case T => "T"
    case PP => "PP"
    case EC => "EC"
  }

  /** `ACTIVITY_TYPES`, in the source's order. */
  function ActivityTypes(): seq<string> {
    ["C", "CP", "S", "PL", "TE", "T", "PP", "EC"]
  }

  /** `CRITICAL_TYPES`. */
  function CriticalTypes(): seq<string> {
    ["T", "TE", "PP"]
  }

  /** The activity a code stands for; codes are case-sensitive and must
      match exactly. */
  function ParseActivity(s: string): (r: Option<ActivityType>)
    ensures r.Some? <==> s in ActivityTypes()
    ensures r.Some? ==> Code(r.value) == s
  {
    if s == "C" then Some(C)
    else if s == "CP" then Some(CP)
    else if s == "S" then Some(S)
    else if s == "PL" then Some(PL)
    else if s == "TE" then Some(TE)
    else if s == "T" then Some(T)
    else if s == "PP" then Some(PP)
    else if s == "EC" then Some(EC)
    else None
  }

  /** Every activity's code is listed and reads back as that activity. */
  lemma CodeRoundTrip(a: ActivityType)
    ensures Code(a) in ActivityTypes()
    ensures ParseActivity(Code(a)) == Some(a)
  {
  }

  /** Different activities have different codes. */
  lemma CodeInjective(a: ActivityType, b: ActivityType)
    requires Code(a) == Code(b)
    ensures a == b
  {
    CodeRoundTrip(a);
    CodeRoundTrip(b);
  }

  /** `is_critical_type`: membership in the critical list. */
  predicate IsCritical(s: string) {
    s in CriticalTypes()
  }

  /** A code is critical exactly when it is the code of Taller, Tarea
      Extraclase or Prueba Parcial; in particular every critical code is an
      activity code, and lower-case spellings or unknown codes are not
      critical. */
  lemma CriticalMeansCriticalActivity(s: string)
    ensures IsCritical(s) <==> ParseActivity(s) in {Some(T), Some(TE), Some(PP)}
  {
  }
}
