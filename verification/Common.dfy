/** Shared result types. */
module Common {
  datatype Option<+T> = None | Some(value: T)

  datatype Result<+T, +E> = Success(value: T) | Failure(error: E)

  /** Converts a list, giving up at the first element that does not convert. */
  function MapAll<A, B>(f: A -> Option<B>, s: seq<A>): (r: Option<seq<B>>) {
    if s == [] then Some([]) else
      var init := MapAll(f, s[..|s| - 1]);
      if init.None? then None else
        match f(s[|s| - 1])
        case None => None
        case Some(b) => Some(init.value + [b])
  }

  lemma {:induction false} MapAllAt<A, B>(f: A -> Option<B>, s: seq<A>)
    ensures MapAll(f, s).Some? <==> forall i :: 0 <= i < |s| ==> f(s[i]).Some?
    ensures MapAll(f, s).Some? ==>
              |MapAll(f, s).value| == |s| && forall i :: 0 <= i < |s| ==> f(s[i]) == Some(MapAll(f, s).value[i])
  {
    if s != [] {
      var init := s[..|s| - 1];
      MapAllAt(f, init);
      if MapAll(f, s).None? && MapAll(f, init).None? {
        var i :| 0 <= i < |init| && f(init[i]).None?;
        assert s[i] == init[i];
      }
    }
  }
}
