/** The scheduler framework's resource vector and the pods that ask for one. */
module Resources {
  import opened Options

  /** One dimension of a resource vector. */
  datatype Dim = Cpu | Memory | EphemeralStorage | PodNumber | Scalar(name: string)

  /** `framework.Resource`: four fixed dimensions and a map of named scalars, where a missing name means 0. */
  datatype Resource = Resource(milliCPU: int, memory: int, ephemeralStorage: int,
                               allowedPodNumber: int, scalars: map<string, int>)
  {
    function At(d: Dim): int {
      match d
      case Cpu => milliCPU
      case Memory => memory
      case EphemeralStorage => ephemeralStorage
      case PodNumber => allowedPodNumber
      case Scalar(n) => Lookup(scalars, n)
    }

    function Plus(other: Resource): (r: Resource)
      ensures forall d: Dim :: r.At(d) == At(d) + other.At(d)
    {
      Resource(milliCPU + other.milliCPU, memory + other.memory, ephemeralStorage + other.ephemeralStorage,
               allowedPodNumber + other.allowedPodNumber,
               map n | n in scalars.Keys + other.scalars.Keys :: Lookup(scalars, n) + Lookup(other.scalars, n))
    }

    function Minus(other: Resource): (r: Resource)
      ensures forall d: Dim :: r.At(d) == At(d) - other.At(d)
    {
      Resource(milliCPU - other.milliCPU, memory - other.memory, ephemeralStorage - other.ephemeralStorage,
               allowedPodNumber - other.allowedPodNumber,
               map n | n in scalars.Keys + other.scalars.Keys :: Lookup(scalars, n) - Lookup(other.scalars, n))
    }

    ghost predicate NonNegative() {
      forall d: Dim :: 0 <= At(d)
    }
  }

  const ZERO: Resource := Resource(0, 0, 0, 0, map[])

  function Lookup(m: map<string, int>, n: string): int {
    if n in m then m[n] else 0
  }

  /** No dimension of `x` exceeds the same dimension of `y`. */
  ghost predicate AtMost(x: Resource, y: Resource) {
    forall d: Dim :: x.At(d) <= y.At(d)
  }

  /** The parts of a pod that the preemption plugins look at; `request` is its computed resource request,
      `scheduledAt` the time of its PodScheduled condition when that condition is true. */
  datatype Pod = Pod(uid: string, namespace: string, name: string, labels: map<string, string>,
                     priority: int, startTime: int, request: Resource,
                     priorityClass: string, preemptNever: bool, scheduledAt: Option<int>)

  /** The pods of one node carry distinct, non-empty identities and ask for nothing negative. */
  ghost predicate WellFormed(pods: set<Pod>) {
    && (forall p, q :: p in pods && q in pods && p.uid == q.uid ==> p == q)
    && (forall p :: p in pods ==> p.uid != "" && p.request.NonNegative())
  }

  /** The order of importance: higher priority first, then the longer-running pod. */
  predicate MoreImportant(p: Pod, q: Pod) {
    p.priority > q.priority || (p.priority == q.priority && p.startTime < q.startTime)
  }
}
