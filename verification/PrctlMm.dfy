/** The PR_SET_MM setters of kernel/sys.c: eleven addresses of the address space and the saved
    auxiliary vector, changed one at a time, all at once, or by a partial copy. */
module PrctlMm {
  import opened Errno

  const START_CODE := 0
  const END_CODE := 1
  const START_DATA := 2
  const END_DATA := 3
  const START_BRK := 4
  const BRK := 5
  const START_STACK := 6
  const ARG_START := 7
  const ARG_END := 8
  const ENV_START := 9
  const ENV_END := 10
  const FIELDS := 11

  /** The eleven addresses, in the order of the kernel's table of offsets. */
  type Addrs = a: seq<nat> | |a| == FIELDS witness seq(FIELDS, i => 0)

  /** The auxiliary vector as bytes; its last two words are its last WORD_PAIR bytes. */
  type Bytes = seq<bv8>
  const WORD_PAIR := 16
  type Auxv = v: Bytes | |v| >= WORD_PAIR witness seq(WORD_PAIR, i => 0)

  datatype Limits = Limits(taskSize: nat, minAddr: nat)

  datatype Mm = Mm(addrs: Addrs, auxv: Auxv)

  predicate InRange(a: Addrs, lim: Limits) {
    forall i | 0 <= i < FIELDS :: lim.minAddr <= a[i] < lim.taskSize
  }

  predicate Ordered(a: Addrs) {
    && a[START_CODE] < a[END_CODE] && a[START_DATA] <= a[END_DATA] && a[START_BRK] <= a[BRK]
    && a[ARG_START] <= a[ARG_END] && a[ENV_START] <= a[ENV_END]
  }

  predicate Good(a: Addrs, lim: Limits) { InRange(a, lim) && Ordered(a) }

  predicate EndsInNull(v: Auxv) {
    forall i | |v| - WORD_PAIR <= i < |v| :: v[i] == 0
  }

  // ---------------------------------------------------------------- requests

  /** The option of a PR_SET_MM request: an address field, the whole map, the map's size, the exe file,
      the auxiliary vector, or a number that names nothing. */
  datatype Opt = Field(k: int) | Map | MapSize | ExeFile | AuxVector | Unknown

  /** The struct prctl_mm_map a caller passes; auxvPtr says whether its auxv field is non-NULL and
      auxvSize is the number of bytes to copy. */
  datatype MmMap = MmMap(addrs: Addrs, auxvPtr: bool, auxvSize: nat, hasExe: bool)

  /** What the rest of the kernel answers, and the user memory a request points at. */
  datatype Env = Env(
    capable: bool,          // CAP_SYS_RESOURCE
    restore: bool,          // checkpoint/restore capability
    rlimitOk: bool,         // check_data_rlimit() accepts
    hasVma: bool,           // find_vma() finds a mapping
    mapReadable: bool,      // copy_from_user() of the map succeeds
    auxReadable: bool,      // copy_from_user() of the vector succeeds
    sizeWritable: bool,     // put_user() of the map's size succeeds
    exe: int,               // prctl_set_mm_exe_file()
    map_: MmMap,
    aux: Bytes)

  datatype Request = Request(opt: Opt, addr: nat, arg4: nat, arg5: nat)

  /** The stack, argument and environment addresses must lie in or below a mapping. */
  predicate NeedsVma(k: int) { START_STACK <= k <= ENV_END }

  // ---------------------------------------------------------------- the setters, declaratively

  /** The user's vector cut or padded to the saved size, with the last two words cleared. */
  function UserAuxv(src: Bytes, len: nat, size: nat): (v: Auxv)
    requires len <= size && len <= |src| && size >= WORD_PAIR
    ensures |v| == size && EndsInNull(v)
  {
    seq(size, i requires 0 <= i < size => if i < len && i < size - WORD_PAIR then src[i] else 0)
  }

  function FieldResult(mm: Mm, k: int, addr: nat, env: Env, lim: Limits): (int, Mm) {
    if !env.capable then (-EPERM, mm)
    else if !(lim.minAddr <= addr < lim.taskSize) || !(0 <= k < FIELDS) then (-EINVAL, mm)
    else
      var a: Addrs := mm.addrs[k := addr];
      if !Good(a, lim) || !env.rlimitOk then (-EINVAL, mm)
      else if NeedsVma(k) && !env.hasVma then (-EFAULT, mm)
      else (0, mm.(addrs := a))
  }

  function MapResult(mm: Mm, size: nat, sizeOfMap: nat, env: Env, lim: Limits): (int, Mm) {
    var m := env.map_;
    if size != sizeOfMap then (-EINVAL, mm)
    else if !env.mapReadable then (-EFAULT, mm)
    else if !Good(m.addrs, lim) || !env.rlimitOk then (-EINVAL, mm)
    else if m.auxvSize > 0 && (!m.auxvPtr || m.auxvSize > |mm.auxv|) then (-EINVAL, mm)
    else if m.auxvSize > 0 && (!env.auxReadable || m.auxvSize > |env.aux|) then (-EFAULT, mm)
    else if m.hasExe && !env.restore then (-EPERM, mm)
    else if m.hasExe && env.exe != 0 then (env.exe, mm)
    else (0, Mm(m.addrs, if m.auxvSize > 0 then UserAuxv(env.aux, m.auxvSize, |mm.auxv|) else mm.auxv))
  }

  function AuxvResult(mm: Mm, len: nat, env: Env): (int, Mm) {
    if len > |mm.auxv| then (-EINVAL, mm)
    else if !env.auxReadable || len > |env.aux| then (-EFAULT, mm)
    else (0, mm.(auxv := UserAuxv(env.aux, len, |mm.auxv|)[..len] + mm.auxv[len..]))
  }

  function SetMmResult(mm: Mm, r: Request, sizeOfMap: nat, env: Env, lim: Limits): (int, Mm) {
    if r.arg5 != 0 || (r.arg4 != 0 && !r.opt.AuxVector? && !r.opt.Map? && !r.opt.MapSize?) then (-EINVAL, mm)
    else match r.opt
    case MapSize => (if env.sizeWritable then 0 else -EFAULT, mm)
    case Map => MapResult(mm, r.arg4, sizeOfMap, env, lim)
    case ExeFile => (if env.capable then env.exe else -EPERM, mm)
    case AuxVector => if env.capable then AuxvResult(mm, r.arg4, env) else (-EPERM, mm)
    case Field(k) => FieldResult(mm, k, r.addr, env, lim)
    case Unknown => FieldResult(mm, -1, r.addr, env, lim)
  }

  // ---------------------------------------------------------------- results

  /** A request fails without changing anything, or leaves all addresses in range and ordered; an
      address request changes at most the field it names. */
  lemma RequestKeepsGoodAddresses(mm: Mm, r: Request, sizeOfMap: nat, env: Env, lim: Limits)
    ensures var (ret, mm') := SetMmResult(mm, r, sizeOfMap, env, lim);
            && (ret != 0 ==> mm' == mm)
            && (Good(mm.addrs, lim) ==> Good(mm'.addrs, lim))
            && (ret == 0 && (r.opt.Field? || r.opt.Map?) ==> Good(mm'.addrs, lim))
            && (r.opt.Field? && ret == 0 ==>
                  0 <= r.opt.k < FIELDS && mm'.addrs == mm.addrs[r.opt.k := r.addr] && mm'.auxv == mm.auxv)
            && (!r.opt.Field? && !r.opt.Map? ==> mm'.addrs == mm.addrs)
  {
  }

  /** However many bytes are copied, the vector keeps its size and ends in AT_NULL. */
  lemma RequestKeepsAuxvTerminated(mm: Mm, r: Request, sizeOfMap: nat, env: Env, lim: Limits)
    requires EndsInNull(mm.auxv)
    ensures EndsInNull(SetMmResult(mm, r, sizeOfMap, env, lim).1.auxv)
    ensures |SetMmResult(mm, r, sizeOfMap, env, lim).1.auxv| == |mm.auxv|
  {
  }

  /** Eleven addresses in bounds, the five pairs in order. */
  lemma GoodExactly(a: Addrs, lim: Limits)
    ensures Good(a, lim) <==>
              && (forall i | 0 <= i < 11 :: lim.minAddr <= a[i] < lim.taskSize)
              && a[START_CODE] < a[END_CODE] && a[START_DATA] <= a[END_DATA] && a[START_BRK] <= a[BRK]
              && a[ARG_START] <= a[ARG_END] && a[ENV_START] <= a[ENV_END]
  {
  }

  /** When a single address is taken, and with which code it is refused. */
  lemma FieldExactly(mm: Mm, k: int, addr: nat, sizeOfMap: nat, env: Env, lim: Limits)
    ensures var (ret, mm') := SetMmResult(mm, Request(Field(k), addr, 0, 0), sizeOfMap, env, lim);
            var fits := 0 <= k < 11 && lim.minAddr <= addr < lim.taskSize && env.rlimitOk
                        && Good(mm.addrs[k := addr], lim);
            var atMapping := k in {START_STACK, ARG_START, ARG_END, ENV_START, ENV_END};
            && (ret == -EPERM <==> !env.capable)
            && (ret == -EINVAL <==> env.capable && !fits)
            && (ret == -EFAULT <==> env.capable && fits && atMapping && !env.hasVma)
            && (ret == 0 <==> env.capable && fits && (atMapping ==> env.hasVma))
            && mm' == if ret == 0 then Mm(mm.addrs[k := addr], mm.auxv) else mm
  {
  }

  /** When a whole map is taken, and that it then replaces all eleven addresses and, when the caller passes one,
      the vector: the bytes copied, zeros behind them, and zeros in the last two words whatever was copied there. */
  lemma {:induction false} MapExactly(mm: Mm, addr: nat, size: nat, sizeOfMap: nat, env: Env, lim: Limits)
    ensures var (ret, mm') := SetMmResult(mm, Request(Map, addr, size, 0), sizeOfMap, env, lim);
            var m, n := env.map_, env.map_.auxvSize;
            var read := size == sizeOfMap && env.mapReadable;
            var taken := read && Good(m.addrs, lim) && env.rlimitOk && (n > 0 ==> m.auxvPtr && n <= |mm.auxv|);
            var copied := taken && (n > 0 ==> env.auxReadable && n <= |env.aux|);
            && (size != sizeOfMap || (read && !taken) ==> ret == -EINVAL)
            && ((size == sizeOfMap && !read) || (taken && !copied) ==> ret == -EFAULT)
            && (copied && m.hasExe ==> ret == if env.restore then env.exe else -EPERM)
            && (ret == 0 <==>
                  && size == sizeOfMap && env.mapReadable && Good(m.addrs, lim) && env.rlimitOk
                  && (n > 0 ==> m.auxvPtr && n <= |mm.auxv| && env.auxReadable && n <= |env.aux|)
                  && (m.hasExe ==> env.restore && env.exe == 0))
            && (ret != 0 ==> mm' == mm)
            && (ret == 0 ==> mm'.addrs == m.addrs && |mm'.auxv| == |mm.auxv|)
            && (ret == 0 && n == 0 ==> mm'.auxv == mm.auxv)
            && (ret == 0 && n > 0 ==> forall i | 0 <= i < |mm.auxv| ::
                  mm'.auxv[i] == if i < n && i < |mm.auxv| - 16 then env.aux[i] else 0)
  {
  }

  /** The partial copy of the vector: the bytes copied, except in its last two words, which a copy that reaches them
      clears; everything behind the copy stays. */
  lemma {:induction false} AuxvExactly(mm: Mm, addr: nat, len: nat, sizeOfMap: nat, env: Env, lim: Limits)
    ensures var (ret, mm') := SetMmResult(mm, Request(AuxVector, addr, len, 0), sizeOfMap, env, lim);
            && (ret == -EPERM <==> !env.capable)
            && (ret == -EINVAL <==> env.capable && len > |mm.auxv|)
            && (ret == -EFAULT <==> env.capable && len <= |mm.auxv| && (!env.auxReadable || len > |env.aux|))
            && (ret != 0 ==> mm' == mm)
            && (ret == 0 ==> len <= |env.aux| && mm'.addrs == mm.addrs && |mm'.auxv| == |mm.auxv|)
            && (ret == 0 ==> forall i | 0 <= i < |mm.auxv| ::
                  mm'.auxv[i] == if i >= len then mm.auxv[i] else if i < |mm.auxv| - 16 then env.aux[i] else 0)
  {
  }

  /** The remaining options, and the requests refused for their spare arguments: none of them changes anything. */
  lemma OthersExactly(mm: Mm, r: Request, sizeOfMap: nat, env: Env, lim: Limits)
    requires var spare := r.arg5 != 0 || (r.arg4 != 0 && (r.opt.Field? || r.opt.ExeFile? || r.opt.Unknown?));
             spare || r.opt.MapSize? || r.opt.ExeFile? || r.opt.Unknown?
    ensures var (ret, mm') := SetMmResult(mm, r, sizeOfMap, env, lim);
            var spare := r.arg5 != 0 || (r.arg4 != 0 && (r.opt.Field? || r.opt.ExeFile? || r.opt.Unknown?));
            && mm' == mm
            && (spare ==> ret == -EINVAL)
            && (!spare && r.opt.MapSize? ==> ret == if env.sizeWritable then 0 else -EFAULT)
            && (!spare && r.opt.ExeFile? ==> ret == if env.capable then env.exe else -EPERM)
            && (!spare && r.opt.Unknown? ==> ret == if env.capable then -EINVAL else -EPERM)
  {
  }

  datatype Event = Event(r: Request, env: Env)

  function Run(mm: Mm, events: seq<Event>, sizeOfMap: nat, lim: Limits): Mm
    decreases |events|
  {
    if events == [] then mm
    else Run(SetMmResult(mm, events[0].r, sizeOfMap, events[0].env, lim).1, events[1..], sizeOfMap, lim)
  }

  /** Over every run: once any address request has succeeded the addresses are in range and ordered for
      good, and the auxiliary vector stays terminated throughout. */
  lemma {:induction false} EveryRunStaysGood(mm: Mm, events: seq<Event>, sizeOfMap: nat, lim: Limits, i: nat)
    requires i <= |events| && EndsInNull(mm.auxv)
    requires var mid := Run(mm, events[..i], sizeOfMap, lim);
             || Good(mid.addrs, lim)
             || (i < |events| && (events[i].r.opt.Field? || events[i].r.opt.Map?)
                 && SetMmResult(mid, events[i].r, sizeOfMap, events[i].env, lim).0 == 0)
    ensures Good(Run(mm, events, sizeOfMap, lim).addrs, lim)
    ensures EndsInNull(Run(mm, events, sizeOfMap, lim).auxv) && |Run(mm, events, sizeOfMap, lim).auxv| == |mm.auxv|
    decreases |events|
  {
    if events != [] {
      var e := events[0];
      RequestKeepsAuxvTerminated(mm, e.r, sizeOfMap, e.env, lim);
      RequestKeepsGoodAddresses(mm, e.r, sizeOfMap, e.env, lim);
      var next := SetMmResult(mm, e.r, sizeOfMap, e.env, lim).1;
      if i == 0 {
        EveryRunStaysGood(next, events[1..], sizeOfMap, lim, 0);
      } else {
        assert events[..i][0] == e && events[..i][1..] == events[1..][..i - 1];
        EveryRunStaysGood(next, events[1..], sizeOfMap, lim, i - 1);
      }
    }
  }

  // ---------------------------------------------------------------- the code, in place

  class AddressSpace {
    var addrs: Addrs
    var savedAuxv: array<bv8>
    const lim: Limits
    const sizeOfMap: nat

    ghost predicate Valid() reads this { savedAuxv.Length >= WORD_PAIR }

    ghost function View(): Mm
      requires Valid()
      reads this, savedAuxv
    {
      Mm(addrs, savedAuxv[..])
    }

    method ValidateMapAddr(map_: Addrs, env: Env) returns (error: int)
      ensures error == if Good(map_, lim) && env.rlimitOk then 0 else -EINVAL
    {
      var i := 0;
      while i < FIELDS
        invariant 0 <= i <= FIELDS
        invariant forall k | 0 <= k < i :: lim.minAddr <= map_[k] < lim.taskSize
      {
        if map_[i] >= lim.taskSize || map_[i] < lim.minAddr { return -EINVAL; }
        i := i + 1;
      }
      if !(map_[START_CODE] < map_[END_CODE]) || !(map_[START_DATA] <= map_[END_DATA])
         || !(map_[START_BRK] <= map_[BRK]) || !(map_[ARG_START] <= map_[ARG_END])
         || !(map_[ENV_START] <= map_[ENV_END]) {
        return -EINVAL;
      }
      if !env.rlimitOk { return -EINVAL; }
      return 0;
    }

    /** copy_from_user() into a zeroed buffer of the vector's size, last two words cleared. */
    method FetchAuxv(src: Bytes, len: nat) returns (userAuxv: array<bv8>)
      requires Valid() && len <= savedAuxv.Length && len <= |src|
      ensures fresh(userAuxv) && userAuxv[..] == UserAuxv(src, len, savedAuxv.Length)
    {
      var size := savedAuxv.Length;
      userAuxv := new bv8[size](i => 0);
      forall i | 0 <= i < len { userAuxv[i] := src[i]; }
      forall i | size - WORD_PAIR <= i < size { userAuxv[i] := 0; }
    }

    method CopyIn(userAuxv: array<bv8>, len: nat)
      requires userAuxv != savedAuxv && len <= userAuxv.Length == savedAuxv.Length
      modifies savedAuxv
      ensures savedAuxv[..] == userAuxv[..len] + old(savedAuxv[len..])
    {
      forall i | 0 <= i < len { savedAuxv[i] := userAuxv[i]; }
    }

    method SetMmMap(opt: Opt, size: nat, env: Env) returns (error: int)
      requires Valid() && (opt.Map? || opt.MapSize?)
      modifies this, savedAuxv
      ensures Valid() && savedAuxv == old(savedAuxv)
      ensures (error, View()) == if opt.MapSize? then (if env.sizeWritable then 0 else -EFAULT, old(View()))
                                 else MapResult(old(View()), size, sizeOfMap, env, lim)
    {
      if opt.MapSize? { return if env.sizeWritable then 0 else -EFAULT; }
      if size != sizeOfMap { return -EINVAL; }
      if !env.mapReadable { return -EFAULT; }
      var m := env.map_;
      error := ValidateMapAddr(m.addrs, env);
      if error != 0 { return; }
      var userAuxv := new bv8[0];
      if m.auxvSize > 0 {
        if !m.auxvPtr || m.auxvSize > savedAuxv.Length { return -EINVAL; }
        if !env.auxReadable || m.auxvSize > |env.aux| { return -EFAULT; }
        userAuxv := FetchAuxv(env.aux, m.auxvSize);
      }
      if m.hasExe {
        if !env.restore { return -EPERM; }
        error := env.exe;
        if error != 0 { return; }
      }
      addrs := m.addrs;
      if m.auxvSize > 0 {
        CopyIn(userAuxv, userAuxv.Length);
        assert old(savedAuxv[..])[userAuxv.Length..] == [];
        assert savedAuxv[..] == userAuxv[..];
      }
      return 0;
    }

    method SetAuxv(len: nat, env: Env) returns (error: int)
      requires Valid()
      modifies savedAuxv
      ensures (error, View()) == AuxvResult(old(View()), len, env)
    {
      if len > savedAuxv.Length { return -EINVAL; }
      if !env.auxReadable || len > |env.aux| { return -EFAULT; }
      var userAuxv := FetchAuxv(env.aux, len);
      CopyIn(userAuxv, len);
      assert userAuxv[..len] == userAuxv[..][..len];
      return 0;
    }

    method SetMm(r: Request, env: Env) returns (error: int)
      requires Valid()
      modifies this, savedAuxv
      ensures Valid() && savedAuxv == old(savedAuxv)
      ensures (error, View()) == SetMmResult(old(View()), r, sizeOfMap, env, lim)
    {
      if r.arg5 != 0 || (r.arg4 != 0 && !r.opt.AuxVector? && !r.opt.Map? && !r.opt.MapSize?) { return -EINVAL; }
      if r.opt.Map? || r.opt.MapSize? {
        error := SetMmMap(r.opt, r.arg4, env);
        return;
      }
      if !env.capable { return -EPERM; }
      if r.opt.ExeFile? { return env.exe; }
      if r.opt.AuxVector? {
        error := SetAuxv(r.arg4, env);
        return;
      }
      if r.addr >= lim.taskSize || r.addr < lim.minAddr { return -EINVAL; }
      var map_ := addrs;
      match r.opt {
        case Field(k) =>
          if !(0 <= k < FIELDS) { return -EINVAL; }
          map_ := map_[k := r.addr];
        case _ => return -EINVAL;
      }
      error := ValidateMapAddr(map_, env);
      if error != 0 { return; }
      var k := r.opt.k;
      if k == START_STACK || k == ARG_START || k == ARG_END || k == ENV_START || k == ENV_END {
        if !env.hasVma { return -EFAULT; }
      }
      addrs := map_;
      return 0;
    }
  }
}
