/** The queue manager: the map of queues, the wiring of a redrive policy, and the hand-off to a dead-letter queue. */
module QueueManagers {
  import opened StoreTypes
  import opened MemorySpec
  import opened MemoryStores
  import Redrive

  /** A parsed redrive policy. */
  datatype Policy = Policy(deadLetterTargetArn: string, maxReceiveCount: int)

  /** The attributes of a queue that matter to its store. */
  datatype Attributes = Attributes(
    fifoQueue: bool,
    contentBasedDeduplication: bool,
    visibilityTimeout: int,
    messageRetentionPeriod: int,
    redrivePolicy: Option<Policy>)

  /** A policy takes effect only with a positive maxReceiveCount. */
  function StoreConfig(attrs: Attributes): (cfg: Config)
    ensures cfg.hasRedrive <==> cfg.maxReceiveCount > 0
    ensures forall n: nat :: cfg.RedriveDue(n) <==>
              attrs.redrivePolicy.Some? && 0 < attrs.redrivePolicy.value.maxReceiveCount <= n
  {
    var wired := attrs.redrivePolicy.Some? && attrs.redrivePolicy.value.maxReceiveCount > 0;
    Config(attrs.fifoQueue, attrs.contentBasedDeduplication, attrs.visibilityTimeout,
           if wired then attrs.redrivePolicy.value.maxReceiveCount else 0, wired, attrs.messageRetentionPeriod)
  }

  class Queue {
    const name: string
    const attributes: Attributes
    const store: MemoryStore

    constructor (name: string, attributes: Attributes, store: MemoryStore)
      ensures this.name == name && this.attributes == attributes && this.store == store
    {
      this.name, this.attributes, this.store := name, attributes, store;
    }
  }

  method NewQueue(name: string, attrs: Attributes) returns (queue: Queue)
    ensures fresh(queue.store) && queue.store.Valid() && queue.store.model == Init(StoreConfig(attrs))
    ensures queue.name == name && queue.attributes == attrs
  {
    var store := new MemoryStore(StoreConfig(attrs));
    queue := new Queue(name, attrs, store);
  }

  datatype CreateResult = Created(queue: Queue) | Existing(queue: Queue) | NameExists

  class QueueManager {
    var queues: map<string, Queue>

    ghost function Stores(): set<MemoryStore>
      reads this
    {
      set name | name in queues :: queues[name].store
    }

    ghost function Messages(): set<MemoryMessage>
      reads this, Stores()
    {
      set name, i | name in queues && 0 <= i < |queues[name].store.messages| :: queues[name].store.messages[i]
    }

    ghost predicate Valid()
      reads this, Stores(), Messages()
    {
      && (forall name :: name in queues ==> queues[name].name == name && queues[name].store.Valid())
      && (forall a, b :: a in queues && b in queues && a != b ==> queues[a].store != queues[b].store)
    }

    /** Every queue but one is as it was. */
    twostate predicate OthersUnchanged(name: string)
      reads this, Stores()
    {
      forall other :: other in queues && other != name ==>
        other in old(queues) && queues[other] == old(queues)[other]
        && queues[other].store.model == old(queues[other].store.model)
    }

    constructor ()
      ensures Valid() && queues == map[]
    {
      queues := map[];
    }

    method CreateQueue(name: string, attrs: Attributes) returns (result: CreateResult)
      requires Valid()
      modifies this
      ensures Valid() && OthersUnchanged(name) && queues.Keys == old(queues).Keys + {name}
      ensures if name !in old(queues) then
                result == Created(queues[name]) && queues[name].attributes == attrs
                && queues[name].store.model == Init(StoreConfig(attrs))
              else
                queues == old(queues)
                && result == if queues[name].attributes == attrs then Existing(queues[name]) else NameExists
    {
      if name in queues {
        return if queues[name].attributes != attrs then NameExists else Existing(queues[name]);
      }
      var queue := AddQueue(name, attrs);
      result := Created(queue);
    }

    method AddQueue(name: string, attrs: Attributes) returns (queue: Queue)
      requires Valid() && name !in queues
      modifies this
      ensures Valid() && OthersUnchanged(name) && queues == old(queues)[name := queue]
      ensures queue.attributes == attrs && queue.store.model == Init(StoreConfig(attrs))
    {
      queue := NewQueue(name, attrs);
      ghost var before := queues;
      Insert(queue);
      assert queues == before[name := queue];
    }

    /** No store changes: only the map gains the queue. */
    method Insert(queue: Queue)
      requires Valid() && queue.name !in queues && queue.store.Valid()
      requires forall other :: other in queues ==> queues[other].store != queue.store
      modifies this
      ensures Valid() && queues == old(queues)[queue.name := queue] && OthersUnchanged(queue.name)
    {
      queues := queues[queue.name := queue];
    }

    /** The queue an ARN names: what follows its last colon. */
    method LookupQueueByArn(arn: string) returns (found: Option<Queue>)
      ensures found == match Redrive.NameOfArn(arn)
                       case None => None
                       case Some(name) => if name in queues then Some(queues[name]) else None
    {
      var i := |arn| - 1;
      while i >= 0 && arn[i] != ':'
        invariant -1 <= i < |arn| && forall j :: i < j < |arn| ==> arn[j] != ':'
      {
        i := i - 1;
      }
      assert i == Redrive.LastColon(arn);
      if i < 0 || arn[i + 1..] !in queues {
        return None;
      }
      found := Some(queues[arn[i + 1..]]);
    }

    /** The redrive callback: best effort, errors are only logged. */
    method RedriveMessage(arn: string, msg: Message, now: int) returns (outcome: Redrive.Outcome)
      requires Valid()
      modifies Stores()
      ensures Valid() && queues == old(queues)
      ensures var target := Redrive.NameOfArn(arn);
              if target.Some? && target.value in queues then
                var (s, r) := Send(old(queues[target.value].store.model), now, PrepareForRedrive(msg), 0);
                queues[target.value].store.model == s && outcome == Redrive.OutcomeOf(r) && OthersUnchanged(target.value)
              else
                && outcome == Redrive.QueueNotFound
                && forall name :: name in queues ==> queues[name].store.model == old(queues[name].store.model)
    {
      var found := LookupQueueByArn(arn);
      if found.None? {
        return Redrive.QueueNotFound;
      }
      var result := SendTo(found.value.name, PrepareForRedrive(msg), now);
      outcome := Redrive.OutcomeOf(result);
    }

    method SendTo(name: string, msg: Message, now: int) returns (result: SendResult)
      requires Valid() && name in queues
      modifies queues[name].store
      ensures Valid() && queues == old(queues) && OthersUnchanged(name)
      ensures (queues[name].store.model, result) == Send(old(queues[name].store.model), now, msg, 0)
    {
      result := queues[name].store.SendMessage(msg, 0, now);
    }
  }
}
