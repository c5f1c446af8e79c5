/** Keycode message assembly as the device runs it: one frame buffer filled key by key. */
module KeycodeAssembler {
  import opened Prelude
  import opened KeycodeMas

  class Assembler {
    const config: Config
    const keys: array<char>
    var length: nat
    var maxLengthExceeded: bool
    var rlBucket: U32
    var graceperiodKeycodes: U8
    var nvBlock: Option<U8>
    var startSeen: bool
    var latestUptime: U32

    ghost predicate Valid()
      reads this
    {
      config.Valid() && keys.Length == MAX_MESSAGE_LENGTH && length <= keys.Length
    }

    ghost function State(): (r: Mas)
      requires Valid()
      reads this, keys
    {
      Mas(graceperiodKeycodes, nvBlock, keys[..length], maxLengthExceeded, rlBucket, startSeen, latestUptime)
    }

    /** Power-up: nexus_keycode_mas_init() and bookend_init(). */
    constructor (config: Config, nv: Option<U8>)
      requires config.Valid()
      ensures Valid() && this.config == config && State() == KeycodeMas.Init(config, nv)
    {
      var grace: U8 := if nv.Some? then nv.value else config.initialCount;
      Products(grace, 255, config.refill, 3600);
      var count: int := grace;
      this.config := config;
      keys := new char[MAX_MESSAGE_LENGTH](_ => ' ');
      graceperiodKeycodes, nvBlock := grace, nv;
      rlBucket := count * config.refill;
      length, maxLengthExceeded := 0, false;
      startSeen, latestUptime := false, 0;
    }

    method IsRateLimited() returns (limited: bool)
      requires Valid()
      ensures limited == Limited(config, State())
    {
      if config.bucketMax == 0 {
        return false;
      }
      limited := rlBucket < config.refill;
    }

    /** nexus_keycode_rate_limit_add_time() */
    method AddTime(secondsElapsed: U32)
      requires Valid()
      modifies `rlBucket
      ensures rlBucket == KeycodeMas.AddTime(config, old(rlBucket), secondsElapsed)
    {
      CapFits(config);
      var maxRateLimitSeconds: U32 := config.Cap();
      if secondsElapsed > UINT32_MAX - rlBucket {
        rlBucket := maxRateLimitSeconds;
      } else if rlBucket + secondsElapsed >= maxRateLimitSeconds {
        rlBucket := maxRateLimitSeconds;
      } else {
        rlBucket := rlBucket + secondsElapsed;
      }
    }

    /** nexus_keycode_rate_limit_attempts_remaining(): division by repeated subtraction. */
    method AttemptsRemaining() returns (attempts: nat)
      requires Valid()
      ensures attempts == Attempts(config, rlBucket)
    {
      attempts := 0;
      if config.bucketMax == 0 {
        return;
      }
      var secondsRemaining: int, refill: int := rlBucket, config.refill;
      while secondsRemaining >= refill
        invariant 0 <= secondsRemaining && rlBucket == attempts * refill + secondsRemaining
        decreases secondsRemaining
      {
        secondsRemaining := secondsRemaining - refill;
        attempts := attempts + 1;
      }
      DivModIs(rlBucket, refill, attempts, secondsRemaining);
    }

    /** nexus_keycode_mas_remaining_graceperiod_keycodes() */
    method RemainingGraceperiodKeycodes() returns (count: U8)
      requires Valid()
      ensures count == GraceCount(config, rlBucket)
    {
      GraceFits(config, rlBucket);
      if config.bucketMax == 0 {
        return 0;
      }
      var initial: int := config.initialCount;
      if rlBucket >= initial * config.refill {
        return config.initialCount;
      }
      count := AttemptsRemaining();
    }

    method DeductMsg()
      requires Valid()
      modifies `rlBucket
      ensures Valid() && State() == Deducted(config, old(State()))
    {
      if config.bucketMax > 0 && rlBucket >= config.refill {
        rlBucket := rlBucket - config.refill;
      }
    }

    method Reset()
      requires Valid()
      modifies `length, `maxLengthExceeded
      ensures Valid() && State() == KeycodeMas.Reset(old(State()))
    {
      length := 0;
      maxLengthExceeded := false;
    }

    method Push(key: char)
      requires Valid()
      modifies `length, `maxLengthExceeded, keys
      ensures Valid() && State() == Pushed(old(State()), key)
    {
      if length < MAX_MESSAGE_LENGTH {
        keys[length] := key;
        length := length + 1;
      } else {
        maxLengthExceeded := true;
      }
    }

    /** bookend_reset() and finish(): what the handler is given, or the rejection. */
    method Finish() returns (e: Effect)
      requires Valid()
      modifies this
      ensures Valid() && (State(), e) == Finished(config, old(State()))
    {
      startSeen := false;
      if length > 0 && !maxLengthExceeded {
        e := Handled(keys[..length]);
      } else {
        e := MessageInvalid;
      }
      DeductMsg();
      Reset();
    }

    method HasReachedStopLength() returns (reached: bool)
      requires Valid()
      ensures reached == ReachedStop(config, State())
    {
      if config.StopLength() == NO_STOP_LENGTH {
        return false;
      }
      reached := length >= config.StopLength();
    }

    /** nexus_keycode_mas_bookend_push() */
    method BookendPush(key: char) returns (e: Effect)
      requires Valid()
      modifies this, keys
      ensures Valid() && (State(), e) == PressKey(config, old(State()), key)
    {
      latestUptime := UINT32_MAX;
      var limited := IsRateLimited();
      if limited {
        e := KeyRejected;
      } else if key == config.Start() {
        e := KeyAccepted;
        startSeen := true;
        Reset();
      } else if startSeen {
        if key == config.End() {
          e := Finish();
        } else {
          Push(key);
          var reached := HasReachedStopLength();
          if reached {
            e := Finish();
          } else {
            e := KeyAccepted;
          }
        }
      } else {
        e := KeyRejected;
      }
    }

    /** nx_keycode_handle_complete_keycode() */
    method HandleCompleteKeycode(code: string, length: U8) returns (e: Effect)
      requires Valid() && Readable(config, code, length)
      modifies this, keys
      ensures Valid() && (State(), e) == CompleteCode(config, old(State()), code, length)
    {
      var limited := IsRateLimited();
      if limited || code[0] != config.Start() {
        return MessageInvalid;
      }
      startSeen := true;
      Reset();
      PushBody(code, length);
      e := Finish();
    }

    /** The keys after the start key, up to the last one or the stop length. */
    method PushBody(code: string, length: U8)
      requires Valid() && Readable(config, code, length)
      modifies this, keys
      ensures Valid() && State() == PushUntilStop(config, old(State()), BodyOf(config, code, length))
    {
      var last := if config.small then length else (length + 0xFF) % 0x100;
      ghost var body := BodyOf(config, code, length);
      ghost var target := PushUntilStop(config, State(), body);
      var i := 1;
      hide PushUntilStop, Pushed, ReachedStop;
      while i < last
        invariant Valid() && 1 <= i && i - 1 <= |body| && (i < last ==> last == |body| + 1) && (i >= last ==> i - 1 == |body|)
        invariant PushUntilStop(config, State(), body[i - 1..]) == target
        decreases last - i
      {
        PushStep(config, State(), body[i - 1..]);
        assert body[i - 1..][0] == code[i] && body[i - 1..][1..] == body[i..];
        Push(code[i]);
        var reached := HasReachedStopLength();
        if reached {
          return;
        }
        i := i + 1;
      }
      PushStep(config, State(), body[i - 1..]);
    }

    /** nexus_keycode_mas_bookend_process() */
    method BookendProcess(uptime: U32) returns (sleep: U32)
      requires Valid()
      modifies this
      ensures Valid() && State() == KeycodeMas.BookendProcess(config, old(State()), uptime)
      ensures sleep == if startSeen then 1 else IDLE_SECONDS
    {
      if startSeen {
        if latestUptime == UINT32_MAX {
          latestUptime := uptime;
        }
        var elapsed := (uptime - latestUptime) % 0x1_0000_0000;
        if elapsed > config.timeout {
          startSeen := false;
          Reset();
        }
      }
      sleep := if startSeen then 1 else IDLE_SECONDS;
    }

    /** nexus_keycode_mas_process() */
    method Process(secondsElapsed: U32, uptime: U32) returns (sleep: U32)
      requires Valid()
      modifies this
      ensures Valid() && State() == KeycodeMas.Process(config, old(State()), secondsElapsed, uptime)
      ensures sleep == if startSeen then 1 else IDLE_SECONDS
    {
      AddTime(secondsElapsed);
      var graceperiodCount := RemainingGraceperiodKeycodes();
      if graceperiodCount != graceperiodKeycodes {
        graceperiodKeycodes := graceperiodCount;
        nvBlock := Some(graceperiodKeycodes);
      }
      sleep := BookendProcess(uptime);
    }
  }

  lemma PushStep(c: Config, s: Mas, body: string)
    ensures PushUntilStop(c, s, body) ==
      if body == "" then s
      else if ReachedStop(c, Pushed(s, body[0])) then Pushed(s, body[0])
      else PushUntilStop(c, Pushed(s, body[0]), body[1..])
  {
  }
}
