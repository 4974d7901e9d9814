/** The three independent state axes that the LED reflects. */
module States {

  /** Overall device state. */
  datatype SystemState = Booting | Updating | Error | Ready

  /** Media playback state. */
  datatype PlaybackState = Inactive | Paused | Playing

  /** Bluetooth connectivity state. */
  datatype BluetoothState = Inactive | Pairing | Connected
}
