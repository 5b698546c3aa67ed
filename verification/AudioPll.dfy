/** The fixed-point arithmetic that tunes the audio PLL to a sample clock. */
module AudioPll {

  const LOWEST := 1000 * 512
  const HIGHEST := 96000000
  const TWO32 := 0x1_0000_0000
  const TWO64 := 0x1_0000_0000_0000_0000

  /** The dividers of a frequency band, and its scale factor: the PLL word for 1 Hz, times 2^32. */
  datatype Band = Band(prediv: int, div: int, scale: int)

  function BandOf(freq: int): Band {
    if freq <= 8000 * 512 then
      if freq <= 2500 * 512 then Band(8, 108, 0x389F83BE4)
      else if freq <= 4000 * 512 then Band(4, 108, 0x1C4FC1DF2)
      else Band(2, 108, 0xE27E0EF9)
    else if freq <= 19531 * 512 then Band(2, 72, 0x96FEB4A6)
    else if freq <= 66000 * 512 then Band(2, 36, 0x4B7F5A53)
    else Band(2, 18, 0x25BFAD2A)
  }

  /** The word is right to half a step and the rounding of the scale factor: 10^6 times the word is close to the exact
      4096 * prediv * div * freq. */
  predicate Accurate(prediv: int, div: int, word: int, freq: int) {
    -508963 <= 1000000 * word - 4096 * prediv * div * freq <= 508963
  }

  /** Adding half and taking the upper half of the product is rounding to the nearest word. No product reaches 2^64, the
      band's word is accurate, and it fits the 24 bits of its field. */
  lemma WordIsAccurate(freq: int)
    requires LOWEST <= freq <= HIGHEST
    ensures var b := BandOf(freq);
            var product := b.scale * freq + 0x8000_0000;
            var word := product / TWO32;
            0 < product < TWO64 && Accurate(b.prediv, b.div, word, freq) && 0 < word < 0x100_0000
  {
  }

  function Clamped(freq: int): int {
    if freq < LOWEST then LOWEST else if freq > HIGHEST then HIGHEST else freq
  }

  /** Two bits of a request select the channels; without any it is the first. */
  function ChannelsOf(channels: int): (c: int)
    ensures 1 <= c <= 3
  {
    if channels % 4 == 0 then 1 else channels % 4
  }

  /** What the host can tell the sampler. `found` says whether the search for the device succeeds, should there be
      one. */
  datatype Command = WakeUp(found: bool) | Start(channels: int, freq: int, found: bool) | Stop | Sleep

  /** The configuration, and whether the device is there. */
  datatype Config = Config(awake: bool, start: bool, channels: int, freq: int)

  /** Only a wake-up makes the device listen. Every start then gets the channels and the clamped frequency it asks for,
      whether or not it finds the device to be running with them already. */
  function After(c: Config, command: Command): Config {
    match command
    case WakeUp(found) => if c.awake then c else Config(found, false, c.channels, c.freq)
    case Start(channels, freq, found) =>
      if c.awake then Config(Runs(c, channels, freq) || found, true, ChannelsOf(channels), Clamped(freq)) else c
    case Stop => if c.awake then c.(start := false) else c
    case Sleep => if c.awake then c.(start := false, awake := false) else c
  }

  predicate Runs(c: Config, channels: int, freq: int) {
    c.start && c.channels == channels && c.freq == freq
  }

  function AfterAll(c: Config, commands: seq<Command>): Config {
    if commands == [] then c else After(AfterAll(c, commands[..|commands| - 1]), commands[|commands| - 1])
  }

  /** i2s_cfg and i2s0, and the three fields of the PLL that depend on the frequency. */
  class Clock {
    var freq: int
    var channels: int
    var start: bool
    var awake: bool
    var prediv: int
    var div: int
    var word: int

    /** After power-on the PLL is in whatever state it is in. */
    constructor (prediv: int, div: int, word: int)
      ensures Valid() && Now() == Config(false, false, 3, 24576000)
    {
      freq, channels, start, awake := 24576000, 3, false, false;
      this.prediv, this.div, this.word := prediv, div, word;
    }

    predicate InRange()
      reads this
    {
      LOWEST <= freq <= HIGHEST
    }

    /** The PLL runs at the configured frequency. */
    predicate Tuned()
      reads this
    {
      Accurate(prediv, div, word, freq)
    }

    /** While the device is there, the PLL runs at the configured frequency. */
    predicate Valid()
      reads this
    {
      InRange() && 1 <= channels <= 3 && (awake ==> Tuned())
    }

    function Now(): Config
      reads this
    {
      Config(awake, start, channels, freq)
    }

    /** Set_Audio_PLL_Freq(): the products are taken modulo 2^64. */
    method SetAudioPllFreq(freqHz: int)
      requires LOWEST <= freqHz <= HIGHEST
      modifies `prediv, `div, `word
      ensures Accurate(prediv, div, word, freqHz) && 0 < word < 0x100_0000
      ensures prediv == BandOf(freqHz).prediv && div == BandOf(freqHz).div
      ensures word == (BandOf(freqHz).scale * freqHz + 0x8000_0000) / TWO32
    {
      var post, pre, dd := 36, 2, 0;
      if freqHz <= 8000 * 512 {
        if freqHz <= 2500 * 512 {
          pre := 8;
          post := 108;
          dd := 0x389F83BE4;
        } else if freqHz <= 4000 * 512 {
          pre := 4;
          post := 108;
          dd := 0x1C4FC1DF2;
        } else {
          post := 108;
          dd := 0xE27E0EF9;
        }
      } else if freqHz <= 19531 * 512 {
        post := 72;
        dd := 0x96FEB4A6;
      } else if freqHz <= 66000 * 512 {
        post := 36;
        dd := 0x4B7F5A53;
      } else {
        post := 18;
        dd := 0x25BFAD2A;
      }
      WordIsAccurate(freqHz);
      dd := (dd * freqHz % TWO64 + 0x8000_0000) % TWO64;
      prediv := pre;
      word := dd / TWO32;
      div := post;
    }

    /** The configuration part of I2S_init(): the requested frequency is clamped, and the PLL is set only when the
        request differs from the frequency in use, which is 0 while the device wakes up. */
    method Init(channels: int, request: int, found: bool)
      requires 0 <= channels < 256
      modifies this
      ensures awake == found && !start && this.channels == ChannelsOf(channels)
      ensures request != old(freq) ==> freq == Clamped(request) && Tuned()
      ensures request == old(freq) ==>
        freq == old(freq) && prediv == old(prediv) && div == old(div) && word == old(word)
    {
      start := false;
      this.channels := channels % 4;
      if this.channels == 0 {
        this.channels := 1;
      }
      if freq != request {
        if request < 1000 * 512 {
          freq := 1000 * 512;
        } else if request > 96000000 {
          freq := 96000000;
        } else {
          freq := request;
        }
        SetAudioPllFreq(freq);
      }
      awake := false;
      if !found {
        return;
      }
      awake := true;
    }

    /** I2S_WakeUp(): forgetting the frequency in use has the PLL set in every case. */
    method Wake(found: bool)
      requires Valid()
      modifies this
      ensures Valid() && Now() == After(old(Now()), WakeUp(found)) && Tuned()
    {
      if !awake {
        var f := freq;
        freq := 0;
        Init(channels, f, found);
      }
    }

    /** I2S_Start(): initializes again only what is not running as asked for. */
    method Begin(channels: int, request: int, found: bool)
      requires Valid() && 0 <= channels < 256
      modifies this
      ensures Valid() && Now() == After(old(Now()), Start(channels, request, found))
      ensures old(Tuned()) ==> Tuned()
    {
      if !awake {
        return;
      }
      if !start || this.channels != channels || freq != request {
        Init(channels, request, found);
      }
      start := true;
    }

    /** I2S_Stop() */
    method Halt()
      requires Valid()
      modifies `start
      ensures Valid() && Now() == After(old(Now()), Stop)
    {
      if awake {
        start := false;
      }
    }

    /** I2S_Sleep() */
    method Doze()
      requires Valid()
      modifies `start, `awake
      ensures Valid() && Now() == After(old(Now()), Sleep)
    {
      if awake {
        start := false;
        awake := false;
      }
    }

    method Perform(command: Command)
      requires Valid() && (command.Start? ==> 0 <= command.channels < 256)
      modifies this
      ensures Valid() && Now() == After(old(Now()), command)
      ensures old(Tuned()) || command.WakeUp? ==> Tuned()
    {
      match command {
        case WakeUp(found) => Wake(found);
        case Start(channels, freq, found) => Begin(channels, freq, found);
        case Stop => Halt();
        case Sleep => Doze();
      }
    }

    /** Any run of commands: the configuration is what the commands ask for, and from the first wake-up on the PLL runs
        at the configured frequency. */
    method Run(commands: seq<Command>)
      requires Valid() && forall i :: 0 <= i < |commands| ==> commands[i].Start? ==> 0 <= commands[i].channels < 256
      modifies this
      ensures Valid() && Now() == AfterAll(old(Now()), commands)
      ensures old(Tuned()) || Wakes(commands) ==> Tuned()
    {
      for i := 0 to |commands|
        invariant Valid() && Now() == AfterAll(old(Now()), commands[..i])
        invariant old(Tuned()) || Wakes(commands[..i]) ==> Tuned()
      {
        assert commands[..i + 1][..i] == commands[..i];
        Perform(commands[i]);
      }
      assert commands[..|commands|] == commands;
    }
  }

  /** From power-on the configured frequency is always that of the last start that found the device there, clamped. */
  lemma {:induction false} FrequencyIsLastStart(c: Config, commands: seq<Command>)
    ensures var f := AfterAll(c, commands).freq;
            || (f == c.freq && forall k :: 0 <= k < |commands| ==> !Reaches(c, commands, k))
            || exists k :: 0 <= k < |commands| && Reaches(c, commands, k) && f == Clamped(commands[k].freq)
                           && forall j :: k < j < |commands| ==> !Reaches(c, commands, j)
  {
    if commands != [] {
      var n := |commands| - 1;
      var before := commands[..n];
      FrequencyIsLastStart(c, before);
      assert forall k :: 0 <= k <= n ==> before[..k] == commands[..k];
      assert forall k :: 0 <= k < n ==> Reaches(c, before, k) == Reaches(c, commands, k);
      if Reaches(c, commands, n) {
        assert AfterAll(c, commands).freq == Clamped(commands[n].freq);
      } else {
        assert AfterAll(c, commands).freq == AfterAll(c, before).freq;
      }
    }
  }

  predicate Wakes(commands: seq<Command>) {
    exists k :: 0 <= k < |commands| && commands[k].WakeUp?
  }

  /** Command k is a start that finds the device there. */
  predicate Reaches(c: Config, commands: seq<Command>, k: nat)
    requires k < |commands|
  {
    commands[k].Start? && AfterAll(c, commands[..k]).awake
  }
}
