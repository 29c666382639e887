/** The cloud as the reload Lambda sees it, and what each API call does to it (infra/lambda/vkg-reload/index.py). */
module ReloadCalls {
  import opened Text

  /** `taskDef` and `registry` are positions in `taskDefs` and `entries`. */
  datatype Service = Service(taskDef: nat, registry: nat, active: bool)

  /** ECS services by name, the image of every registered task definition, the names of the Cloud Map entries. */
  datatype Cloud = Cloud(services: map<string, Service>, taskDefs: seq<string>, entries: seq<string>)

  /** What can go wrong with one call: nothing, refused before it took effect, or done but the reply lost. */
  datatype Fault = Fine | Refused | ReplyLost

  datatype Error = NotFound | NotActive | NameTaken | Other

  datatype Reply<+T> = Ok(value: T) | Err(error: Error)

  function ImageOf(c: Cloud, name: string): string
  {
    if name in c.services && c.services[name].taskDef < |c.taskDefs| then c.taskDefs[c.services[name].taskDef] else ""
  }

  /** The service exists and its task definition names `image`. */
  predicate OnTarget(c: Cloud, name: string, image: string)
  {
    name in c.services && ImageOf(c, name) == image
  }

  /** The effect of a call that is attempted under `fault`: none when refused, and no answer when the reply is lost. */
  function Attempt<T>(c: Cloud, done: (Cloud, Reply<T>), fault: Fault): (Cloud, Reply<T>)
  {
    match fault
    case Fine => done
    case Refused => (c, Err(Other))
    case ReplyLost => (done.0, Err(Other))
  }

  function UpdateService(c: Cloud, name: string, taskDef: Option<nat>, fault: Fault): (Cloud, Reply<()>)
  {
    Attempt(c,
            if name !in c.services then (c, Err(NotFound))
            else if !c.services[name].active then (c, Err(NotActive))
            else
              var s := c.services[name];
              (c.(services := c.services[name := s.(taskDef := if taskDef.Some? then taskDef.value else s.taskDef)]), Ok(())),
            fault)
  }

  function RegisterTaskDefinition(c: Cloud, image: string, fault: Fault): (Cloud, Reply<nat>)
  {
    Attempt(c, (c.(taskDefs := c.taskDefs + [image]), Ok(|c.taskDefs|)), fault)
  }

  /** Creating enforces unique names. */
  function CreateEntry(c: Cloud, entry: string, fault: Fault): (Cloud, Reply<nat>)
  {
    Attempt(c,
            if entry in c.entries then (c, Err(NameTaken))
            else (c.(entries := c.entries + [entry]), Ok(|c.entries|)),
            fault)
  }

  /** Creating enforces unique names among active services. */
  function CreateService(c: Cloud, name: string, taskDef: nat, registry: nat, fault: Fault): (Cloud, Reply<()>)
  {
    Attempt(c,
            if name in c.services && c.services[name].active then (c, Err(NameTaken))
            else (c.(services := c.services[name := Service(taskDef, registry, true)]), Ok(())),
            fault)
  }

  /** One page of the Cloud Map listing, positions `from` up to but not including `until`. */
  function FindOnPage(c: Cloud, entry: string, from: nat, until: nat): (r: Option<nat>)
    requires from <= until <= |c.entries|
    ensures r.Some? ==> from <= r.value < until && c.entries[r.value] == entry
    ensures r.None? ==> entry !in c.entries[from..until]
    decreases until - from
  {
    if from == until then None
    else if c.entries[from] == entry then Some(from)
    else
      assert c.entries[from..until] == [c.entries[from]] + c.entries[from + 1..until];
      FindOnPage(c, entry, from + 1, until)
  }

  function PageEnd(c: Cloud, from: nat, extra: nat): (until: nat)
    requires from <= |c.entries|
    ensures from <= until <= |c.entries|
    ensures until == from ==> from == |c.entries|
  {
    if from + 1 + extra < |c.entries| then from + 1 + extra else |c.entries|
  }
}
