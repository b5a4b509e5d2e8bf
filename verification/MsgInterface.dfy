/** The message ring between interrupt handlers and the main loop. */
module MsgInterface {
  import opened Ring

  datatype Msg = Msg(msg: int, para: int)

  const MSG_MAX_LEN: nat := 64

  const MSG_CONSOLE_COMMAND: int := 0
  const MSG_CONFIG_APPLY: int := 1
  const MSG_WORKTICK: int := 0x1000
  const MSG_LINK_DOWN: int := 0x1001

  /** Bounded FIFO: a message is refused exactly when 64 are pending. */
  function Enqueue(q: seq<Msg>, m: Msg): seq<Msg> {
    if |q| < MSG_MAX_LEN then q + [m] else q
  }

  class MsgRing {
    const list: array<Msg>
    var iPull: nat
    var iPush: nat
    var n: nat

    ghost predicate Valid()
      reads this
    {
      && list.Length == MSG_MAX_LEN
      && iPull < MSG_MAX_LEN && iPush < MSG_MAX_LEN && n <= MSG_MAX_LEN
      && iPush == (iPull + n) % MSG_MAX_LEN
    }

    ghost function Pending(): (q: seq<Msg>)
      requires Valid()
      reads this, list
    {
      Occupied(list[..], iPull, n)
    }

    constructor ()
      ensures Valid() && fresh(list) && Pending() == []
    {
      list := new Msg[MSG_MAX_LEN](_ => Msg(0, 0));
      iPull, iPush, n := 0, 0, 0;
    }

    method PublishMsg(msg: int, para: int) returns (status: int)
      requires Valid()
      modifies this`iPush, this`n, list
      ensures Valid()
      ensures Pending() == Enqueue(old(Pending()), Msg(msg, para))
      ensures if |old(Pending())| < 64 then status == 0 && Pending() == old(Pending()) + [Msg(msg, para)]
              else status == 1 && Pending() == old(Pending())
    {
      if n < MSG_MAX_LEN {
        PushAppends(list[..], iPull, n, Msg(msg, para));
        list[iPush] := Msg(msg, para);
        iPush := (iPush + 1) % MSG_MAX_LEN;
        n := n + 1;
        return 0;
      } else {
        return 1;
      }
    }

    method GetNextMsg() returns (status: int, msg: int, para: int)
      requires Valid()
      modifies this`iPull, this`n
      ensures Valid()
      ensures status == if old(Pending()) == [] then 1 else 0
      ensures status == 0 ==> old(Pending()) == [Msg(msg, para)] + Pending()
      ensures status != 0 ==> Pending() == []
    {
      msg, para := 0, 0;
      if n > 0 {
        PopRemoves(list[..], iPull, n);
        msg, para := list[iPull].msg, list[iPull].para;
        iPull := (iPull + 1) % MSG_MAX_LEN;
        n := n - 1;
        status := 0;
      } else {
        status := 1;
      }
    }
  }
}
