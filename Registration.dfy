/**
 * The life of one `JfrEventFactoryImpl`: it is built from a template (the
 * event type is defined and registered with the flight recorder), it may
 * attach a periodic hook that calls a handler method of the template's owner
 * class, it hands out events, and it unregisters both again.
 *
 * `jdk.jfr.EventFactory` and `jdk.jfr.FlightRecorder` are reduced to the
 * state the factory changes: the set of registered event types and the
 * periodic hooks with the event type each is attached to. Reflection
 * (`Class.forName`, `getMethod`) is a `Classpath` parameter.
 */
module Registration {
  import opened Wrappers
  import opened JavaText
  import opened Schema

  /** An event class made by `EventFactory.create`: its annotations and its fields. */
  class EventType {
    const annotations: seq<Annotation>
    const descriptors: seq<ValueDescriptor>

    constructor (annotations: seq<Annotation>, descriptors: seq<ValueDescriptor>)
      ensures this.annotations == annotations && this.descriptors == descriptors
    {
      this.annotations := annotations;
      this.descriptors := descriptors;
    }
  }

  /** The `Runnable` proxy handed to the recorder: it calls `owner.handler` with a new event of `eventType`. */
  class PeriodicHook {
    const owner: string
    const handler: string
    const eventType: EventType

    constructor (owner: string, handler: string, eventType: EventType)
      ensures this.owner == owner && this.handler == handler && this.eventType == eventType
    {
      this.owner := owner;
      this.handler := handler;
      this.eventType := eventType;
    }
  }

  /** The parts of `jdk.jfr.FlightRecorder` the factory changes. */
  class FlightRecorder {
    /** Event types registered with the recorder. */
    var registered: set<EventType>
    /** Periodic hooks and the event type each one was added for. */
    var periodic: map<PeriodicHook, EventType>

    constructor ()
      ensures registered == {} && periodic == map[]
    {
      registered := {};
      periodic := map[];
    }

    /** `EventFactory.register()`. */
    method Register(t: EventType)
      modifies this
      ensures registered == old(registered) + {t}
      ensures periodic == old(periodic)
    {
      registered := registered + {t};
    }

    /** `EventFactory.unregister()`. */
    method Unregister(t: EventType)
      modifies this
      ensures registered == old(registered) - {t}
      ensures periodic == old(periodic)
    {
      registered := registered - {t};
    }

    /** `FlightRecorder.addPeriodicEvent(eventClass, hook)`, for a hook not added before. */
    method AddPeriodicEvent(t: EventType, hook: PeriodicHook)
      requires hook !in periodic
      modifies this
      ensures periodic == old(periodic)[hook := t]
      ensures registered == old(registered)
    {
      periodic := periodic[hook := t];
    }

    /** `FlightRecorder.removePeriodicEvent(hook)`: true when the hook was there. */
    method RemovePeriodicEvent(hook: PeriodicHook) returns (removed: bool)
      modifies this
      ensures removed <==> hook in old(periodic)
      ensures periodic == old(periodic) - {hook}
      ensures registered == old(registered)
    {
      removed := hook in periodic;
      periodic := periodic - {hook};
    }
  }

  /** What `Class.forName` does with a class name. */
  datatype LoadOutcome =
    | Loaded(handlers: set<string>)  // the public methods that take one `JfrEvent`
    | InitFailure                    // a linkage or initializer error

  /** The classes `Class.forName` can see; a name that is not a key is not found. */
  datatype Classpath = Classpath(classes: map<string, LoadOutcome>)

  /** How the lookup of the periodic handler ends. */
  datatype Resolution =
    | Resolved
    | ClassNotFound(className: string)
    | Ignored  // any other throwable: a null owner or handler, a failed initializer, no such method

  /** `Class.forName(owner).getMethod(handler, JfrEvent.class)`, with its exceptions as outcomes. */
  function Resolve(cp: Classpath, owner: Option<string>, handler: Option<string>): (res: Resolution)
    ensures res == Resolved <==>
      owner.Some? && handler.Some? && owner.value in cp.classes &&
      cp.classes[owner.value].Loaded? && handler.value in cp.classes[owner.value].handlers
    ensures res.ClassNotFound? <==> owner.Some? && owner.value !in cp.classes
    ensures res.ClassNotFound? ==> res.className == owner.value
  {
    if owner.None? then Ignored
    else if owner.value !in cp.classes then ClassNotFound(owner.value)
    else match cp.classes[owner.value]
      case InitFailure => Ignored
      case Loaded(handlers) =>
        if handler.Some? && handler.value in handlers then Resolved else Ignored
  }

  const NotFoundPrefix: string := "Unable to register periodic JFR event of type '"

  /** The line logged when the owner class is not found; `/` in the name reads as `.`. */
  function NotFoundMessage(className: string): (msg: string)
    ensures |msg| == |NotFoundPrefix| + |className| + 1
    ensures msg[..|NotFoundPrefix|] == NotFoundPrefix && msg[|msg| - 1] == '\''
    ensures msg[|NotFoundPrefix|..|msg| - 1] == Replace(className, '/', '.')
    ensures '/' !in msg[|NotFoundPrefix|..|msg| - 1]
    ensures '/' !in className ==> msg == NotFoundPrefix + className + "'"
  {
    ReplaceRemoves(className, '/', '.');
    var msg := NotFoundPrefix + Replace(className, '/', '.') + "'";
    assert msg[|NotFoundPrefix|..|msg| - 1] == Replace(className, '/', '.');
    msg
  }

  /** What `newEvent()` hands out: a fresh event of the factory's type and the factory's index. */
  datatype JfrEvent = JfrEvent(eventType: EventType, fieldIndex: map<string, nat>)

  /** Every indexed name sits at a slot holding it, and every declared name is indexed. */
  ghost predicate IndexValid(descriptors: seq<ValueDescriptor>, fieldIndex: map<string, nat>)
  {
    && (forall n :: n in fieldIndex ==> fieldIndex[n] < |descriptors| && descriptors[fieldIndex[n]].name == n)
    && (forall i :: 0 <= i < |descriptors| ==> descriptors[i].name in fieldIndex)
  }

  lemma ParsedIndexValid(fields: string)
    requires ParseSpec(fields).Success?
    ensures IndexValid(ParseSpec(fields).value.descriptors, ParseSpec(fields).value.fieldIndex)
  {
    ParseSpecFields(fields);
    var s := ParseSpec(fields).value;
    forall i | 0 <= i < |s.descriptors|
      ensures s.descriptors[i].name in s.fieldIndex
    {
      assert Names(s.descriptors)[i] == s.descriptors[i].name;
    }
  }

  class JfrEventFactoryImpl {
    /** The event type `EventFactory.create` made; `eventFactory` in the source. */
    const eventType: EventType
    const fieldIndex: map<string, nat>
    const recorder: FlightRecorder
    var periodicHook: PeriodicHook?

    ghost predicate Valid()
      reads this, eventType
    {
      IndexValid(eventType.descriptors, fieldIndex)
    }

    /** `EventFactory.create(defAnnotations, defFields)` followed by `register()`. */
    constructor (annotations: seq<Annotation>, schema: FieldSchema, recorder: FlightRecorder)
      requires IndexValid(schema.descriptors, schema.fieldIndex)
      modifies recorder
      ensures fresh(eventType) && Valid()
      ensures eventType.annotations == annotations && eventType.descriptors == schema.descriptors
      ensures fieldIndex == schema.fieldIndex && this.recorder == recorder && periodicHook == null
      ensures recorder.registered == old(recorder.registered) + {eventType}
      ensures recorder.periodic == old(recorder.periodic)
    {
      var t := new EventType(annotations, schema.descriptors);
      eventType := t;
      fieldIndex := schema.fieldIndex;
      this.recorder := recorder;
      periodicHook := null;
      new;
      recorder.Register(t);
    }

    /**
     * The whole Java constructor: annotations, then the field loop (which may
     * throw before anything is registered), then create and register, then
     * the periodic hook when the template has both a period and a handler.
     * `info` is the line logged when the owner class is not found.
     */
    static method Create(template: Template, recorder: FlightRecorder, classpath: Classpath)
      returns (r: Result<JfrEventFactoryImpl, FieldLoopException>, info: Option<string>)
      modifies recorder
      ensures r.Failure? <==> ParseSpec(template.fields).Failure?
      ensures r.Failure? ==>
        && r.error == ParseSpec(template.fields).error
        && recorder.registered == old(recorder.registered)
        && recorder.periodic == old(recorder.periodic)
        && info == None
      ensures r.Success? ==>
        var f := r.value;
        var res := Resolve(classpath, template.owner, template.periodicHandler);
        var wanted := template.period.Some? && template.periodicHandler.Some?;
        && fresh(f) && fresh(f.eventType) && f.recorder == recorder && f.Valid()
        && f.eventType.annotations == Annotations(template)
        && f.eventType.descriptors == ParseSpec(template.fields).value.descriptors
        && f.fieldIndex == ParseSpec(template.fields).value.fieldIndex
        && recorder.registered == old(recorder.registered) + {f.eventType}
        && (f.periodicHook != null <==> wanted && res == Resolved)
        && (f.periodicHook != null ==>
              && fresh(f.periodicHook)
              && f.periodicHook.owner == template.owner.value
              && f.periodicHook.handler == template.periodicHandler.value
              && f.periodicHook.eventType == f.eventType
              && recorder.periodic == old(recorder.periodic)[f.periodicHook := f.eventType])
        && (f.periodicHook == null ==> recorder.periodic == old(recorder.periodic))
        && info == (if wanted && res.ClassNotFound? then Some(NotFoundMessage(res.className)) else None)
    {
      var defAnnotations := BuildAnnotations(template);
      var parsed := ParseFields(template.fields);
      if parsed.Failure? {
        return Failure(parsed.error), None;
      }
      ParsedIndexValid(template.fields);
      var f := new JfrEventFactoryImpl(defAnnotations, parsed.value, recorder);
      info := None;
      if template.period.Some? && template.periodicHandler.Some? {
        info := f.AddJfrPeriodicEvent(template, classpath);
      }
      r := Success(f);
    }

    /** `newEvent()`: an event of this factory's type that shares its name index. */
    method NewEvent() returns (e: JfrEvent)
      requires Valid()
      ensures e.eventType == eventType && e.fieldIndex == fieldIndex
      ensures IndexValid(e.eventType.descriptors, e.fieldIndex)
    {
      e := JfrEvent(eventType, fieldIndex);
    }

    /**
     * `addJfrPeriodicEvent(template)`: when the owner class and its handler
     * method resolve, a new hook is added for this factory's event type and
     * kept; a missing class is logged; every other failure is swallowed.
     */
    method AddJfrPeriodicEvent(template: Template, classpath: Classpath) returns (info: Option<string>)
      modifies this`periodicHook, recorder
      ensures var res := Resolve(classpath, template.owner, template.periodicHandler);
        && (res == Resolved ==>
              && periodicHook != null && fresh(periodicHook)
              && periodicHook.owner == template.owner.value
              && periodicHook.handler == template.periodicHandler.value
              && periodicHook.eventType == eventType
              && recorder.periodic == old(recorder.periodic)[periodicHook := eventType])
        && (res != Resolved ==> periodicHook == old(periodicHook) && recorder.periodic == old(recorder.periodic))
        && info == (if res.ClassNotFound? then Some(NotFoundMessage(res.className)) else None)
      ensures recorder.registered == old(recorder.registered)
    {
      var res := Resolve(classpath, template.owner, template.periodicHandler);
      info := None;
      if res == Resolved {
        var hook := new PeriodicHook(template.owner.value, template.periodicHandler.value, eventType);
        recorder.AddPeriodicEvent(eventType, hook);
        periodicHook := hook;
      } else if res.ClassNotFound? {
        info := Some(NotFoundMessage(res.className));
      }
    }

    /** `unregister()`: removes the periodic hook if one was added, then unregisters the event type. */
    method Unregister()
      modifies recorder
      ensures recorder.registered == old(recorder.registered) - {eventType}
      ensures recorder.periodic == if periodicHook != null then old(recorder.periodic) - {periodicHook} else old(recorder.periodic)
    {
      if periodicHook != null {
        var _ := recorder.RemovePeriodicEvent(periodicHook);
      }
      recorder.Unregister(eventType);
    }
  }

  /**
   * Creating a factory and unregistering it leaves the recorder as it was:
   * the event type and the hook are fresh, so removing them undoes adding them.
   */
  method CreateThenUnregister(template: Template, recorder: FlightRecorder, classpath: Classpath)
    modifies recorder
    ensures recorder.registered == old(recorder.registered)
    ensures recorder.periodic == old(recorder.periodic)
  {
    ghost var registered0, periodic0 := recorder.registered, recorder.periodic;
    var r, _ := JfrEventFactoryImpl.Create(template, recorder, classpath);
    if r.Success? {
      var f := r.value;
      ghost var hook := f.periodicHook;
      UndoAdd(registered0, f.eventType);
      if hook != null {
        UndoPut(periodic0, hook, f.eventType);
      }
      f.Unregister();
    }
  }

  lemma UndoAdd<T>(s: set<T>, x: T)
    requires x !in s
    ensures s + {x} - {x} == s
  {
  }

  lemma UndoPut<K, V>(m: map<K, V>, k: K, v: V)
    requires k !in m
    ensures m[k := v] - {k} == m
  {
  }
}
